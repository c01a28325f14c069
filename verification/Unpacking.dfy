/** What unpacks from the archive that tools/tar2cpio.py makes of a tar, in the members'
    own terms: names, permission bits, targets and device numbers as they stand in the
    tar, and the added /init and device nodes spelled out. */
module Unpacking {
  import opened Words
  import opened CText
  import opened Cpio
  import opened Initramfs

  // ------------------------------------------------------------------- names

  /** name is raw without the dots and slashes at its front. */
  predicate StrippedFrom(name: seq<Byte>, raw: seq<Byte>) {
    && |name| <= |raw| && raw[|raw| - |name|..] == name
    && (forall i :: 0 <= i < |raw| - |name| ==> raw[i] == '.' as int || raw[i] == '/' as int)
    && (name != [] ==> name[0] != '.' as int && name[0] != '/' as int)
  }

  lemma {:induction false} StripMeans(raw: seq<Byte>, name: seq<Byte>)
    ensures StrippedFrom(name, raw) <==> name == Strip(raw)
  {
    if raw != [] && raw[0] in {46, 47} {
      StripMeans(raw[1..], name);
      if StrippedFrom(name, raw) {
        assert |name| < |raw|;
        assert raw[1..][|raw[1..]| - |name|..] == raw[|raw| - |name|..];
        forall i | 0 <= i < |raw[1..]| - |name| ensures raw[1..][i] == 46 || raw[1..][i] == 47 {
          assert raw[1..][i] == raw[i + 1];
        }
      }
      if StrippedFrom(name, raw[1..]) {
        assert raw[1..][|raw[1..]| - |name|..] == raw[|raw| - |name|..];
        forall i | 0 <= i < |raw| - |name| ensures raw[i] == 46 || raw[i] == 47 {
          assert i > 0 ==> raw[i] == raw[1..][i - 1];
        }
      }
    } else if StrippedFrom(name, raw) {
      assert |name| == |raw|;
      assert raw[0..] == raw;
    } else {
      assert raw[0..] == raw;
    }
  }

  /** Member k is the first whose name comes to this, and it comes to something. */
  ghost predicate FirstOfName(ms: seq<Member>, k: nat, name: seq<Byte>)
    requires k < |ms|
  {
    name != [] && StrippedFrom(name, ms[k].name) && forall i :: 0 <= i < k ==> !StrippedFrom(name, ms[i].name)
  }

  lemma FirstMeans(ms: seq<Member>, k: nat, name: seq<Byte>)
    requires k < |ms|
    ensures FirstOfName(ms, k, name) <==> IsFirst(ms, k) && name == Strip(ms[k].name)
  {
    hide StrippedFrom, Strip;
    forall i | 0 <= i < |ms| ensures StrippedFrom(name, ms[i].name) <==> name == Strip(ms[i].name) {
      StripMeans(ms[i].name, name);
    }
  }

  // ----------------------------------------------------------------- records

  /** The file type in the four bits above the permissions. */
  function TypeNibble(k: Kind): nat
    requires k != OtherKind
  {
    match k
    case Fifo => 1
    case CharDevice => 2
    case Directory => 4
    case BlockDevice => 6
    case File | HardLink => 8
    case Symlink => 10
  }

  /** What the record of a member must hold. */
  ghost predicate DataOf(data: seq<Byte>, m: Member, name: seq<Byte>) {
    match m.kind
    case Symlink | HardLink => data == m.content
    case File =>
      if name == Ascii("etc/fstab") && !Contains(m.content, Ascii("devtmpfs")) then
        data == m.content + Ascii("devtmpfs\t/dev\t\tdevtmpfs\tdefaults\t0\t0\n")
      else data == m.content
    case _ => data == []
  }

  /** A record that says of a file what the member says. */
  ghost predicate UnpacksAs(r: Rec, m: Member, name: seq<Byte>) {
    && m.kind != OtherKind
    && r.name == name && r.uid == m.uid && r.gid == m.gid && r.mtime == m.mtime
    && r.mode / 0x1000 == TypeNibble(m.kind)
    && r.mode % 0x1000 == (if m.kind == Symlink then 0x1FF else m.mode)
    && r.nlink == (if m.kind == Directory then 2 else 1)
    && DataOf(r.data, m, name)
    && (if m.kind == CharDevice || m.kind == BlockDevice then r.rmaj == m.devmajor && r.rmin == m.devminor
        else r.rmaj == 0 && r.rmin == 0)
  }

  function Pow2(k: nat): nat { if k == 0 then 1 else 2 * Pow2(k - 1) }

  /** A type nibble or-ed with permission bits. */
  lemma {:induction false} OrAbove(a: nat, m: nat, k: nat)
    requires m < Pow2(k)
    ensures Or(a * Pow2(k), m) == a * Pow2(k) + m
  {
    if k == 0 {
      OrZero(a);
    } else {
      var p := Pow2(k - 1);
      assert a * Pow2(k) == 2 * (a * p);
      OrAbove(a, m / 2, k - 1);
      OrStep(a * p, m);
    }
  }

  lemma OrStep(x: nat, m: nat)
    ensures Or(2 * x, m) == m % 2 + 2 * Or(x, m / 2)
  {
    assert 2 * x % 2 == 0 && 2 * x / 2 == x;
  }

  lemma ModeParts(a: nat, m: nat)
    requires m < 0x1000
    ensures Or(a * 0x1000, m) / 0x1000 == a && Or(a * 0x1000, m) % 0x1000 == m
  {
    assert Pow2(12) == 0x1000 by {
      assert Pow2(6) == 64;
    }
    OrAbove(a, m, 12);
  }

  lemma DataMeans(m: Member, name: seq<Byte>)
    ensures WithDevtmpfs(name, m.content)
            == if name == Ascii("etc/fstab") && !Contains(m.content, Ascii("devtmpfs")) then
                 m.content + Ascii("devtmpfs\t/dev\t\tdevtmpfs\tdefaults\t0\t0\n")
               else m.content
  {
    hide Find, Contains, Ascii;
    FindMeans(m.content, DEVTMPFS);
  }

  lemma RecordUnpacks(m: Member, name: seq<Byte>)
    requires m.mode < 0x1000
    ensures RecordOf(m, name).Some? <==> m.kind != OtherKind
    ensures RecordOf(m, name).Some? ==> UnpacksAs(RecordOf(m, name).value, m, name)
  {
    hide Or, WithDevtmpfs, Contains, Ascii;
    DataMeans(m, name);
    ModeParts(1, m.mode);
    ModeParts(2, m.mode);
    ModeParts(4, m.mode);
    ModeParts(6, m.mode);
    ModeParts(8, m.mode);
    ModeParts(10, 0x1FF);
  }

  // -------------------------------------------------------- what is added

  /** The link the kernel runs first. */
  ghost predicate IsInit(r: Rec) {
    r == Rec(Ascii("init"), 0xA1FF, 0, 0, 1, 0, Ascii("sbin/init"), 0, 0)
  }

  /** A character device: its permissions, and its numbers. */
  ghost predicate IsDevice(r: Rec, name: seq<Byte>, permissions: int, major: int, minor: int) {
    r == Rec(name, 0x2000 + permissions, 0, 0, 1, 0, [], major, minor)
  }

  datatype Device = Device(name: seq<Byte>, permissions: int, major: int, minor: int)

  function Devices(): seq<Device> {
    [Device(Ascii("dev/console"), 0x180, 5, 1),
     Device(Ascii("dev/null"), 0x1B6, 1, 3),
     Device(Ascii("dev/zero"), 0x1B6, 1, 5),
     Device(Ascii("dev/full"), 0x1B6, 1, 7),
     Device(Ascii("dev/random"), 0x1B6, 1, 8),
     Device(Ascii("dev/urandom"), 0x1B6, 1, 9),
     Device(Ascii("dev/tty"), 0x1B6, 5, 0),
     Device(Ascii("dev/ttyS0"), 0x190, 4, 64)]
  }

  lemma InitMeans()
    ensures IsInit(INIT_REC)
  {
    hide Ascii, Or;
    ModeParts(10, 0x1FF);
  }

  lemma DeviceMeans(i: nat)
    requires i < 8
    ensures var d := Devices()[i];
            IsDevice(NodeRec(NODES[i]), d.name, d.permissions, d.major, d.minor) && NODES[i].name == d.name
  {
    hide Ascii, Or;
    ModeParts(2, 0x180);
    ModeParts(2, 0x1B6);
    ModeParts(2, 0x190);
  }

  // ------------------------------------------------------------- the whole tar

  /** Everything in the archive, and nothing else: a record for the first member of each
      name, if its kind is known; /init, unless a member is called so; and each device,
      unless a member is. No name is there twice. */
  ghost predicate Unpacked(ms: seq<Member>, rs: seq<Rec>) {
    && NamesDistinct(rs)
    && (forall k, name :: 0 <= k < |ms| && FirstOfName(ms, k, name) && ms[k].kind != OtherKind ==>
          exists r :: r in rs && UnpacksAs(r, ms[k], name))
    && (!Named(ms, Ascii("init")) ==> exists r :: r in rs && IsInit(r))
    && (forall d :: d in Devices() && !Named(ms, d.name) ==>
          exists r :: r in rs && IsDevice(r, d.name, d.permissions, d.major, d.minor))
    && (forall r :: r in rs ==> FromMember(ms, r) || IsInit(r) || FromDevice(r))
  }

  ghost predicate Named(ms: seq<Member>, name: seq<Byte>) {
    exists i :: 0 <= i < |ms| && StrippedFrom(name, ms[i].name)
  }

  ghost predicate FromMember(ms: seq<Member>, r: Rec) {
    exists k :: 0 <= k < |ms| && FirstOfName(ms, k, r.name) && UnpacksAs(r, ms[k], r.name)
  }

  ghost predicate FromDevice(r: Rec) {
    exists d :: d in Devices() && IsDevice(r, d.name, d.permissions, d.major, d.minor)
  }

  lemma NamedMeans(ms: seq<Member>, name: seq<Byte>)
    requires name != []
    ensures Named(ms, name) <==> name in TakeAll(ms).seen
  {
    hide StrippedFrom, Strip, TakeAll;
    SeenIsMet(ms);
    forall i | 0 <= i < |ms| ensures StrippedFrom(name, ms[i].name) <==> Strip(ms[i].name) == name {
      StripMeans(ms[i].name, name);
    }
  }

  /** The members' records. */
  lemma MembersUnpack(ms: seq<Member>)
    requires forall m :: m in ms ==> m.mode < 0x1000
    ensures forall k, name :: 0 <= k < |ms| && FirstOfName(ms, k, name) && ms[k].kind != OtherKind ==>
              exists r :: r in TakeAll(ms).recs && UnpacksAs(r, ms[k], name)
    ensures forall r :: r in TakeAll(ms).recs ==> FromMember(ms, r)
  {
    hide TakeAll, FirstOfName, UnpacksAs, RecordOf, Strip, IsFirst;
    FirstWins(ms);
    forall k, name | 0 <= k < |ms| && FirstOfName(ms, k, name) && ms[k].kind != OtherKind
      ensures exists r :: r in TakeAll(ms).recs && UnpacksAs(r, ms[k], name)
    {
      FirstMeans(ms, k, name);
      RecordUnpacks(ms[k], name);
      assert Wanted(ms, RecordOf(ms[k], name).value);
    }
    forall r | r in TakeAll(ms).recs ensures FromMember(ms, r) {
      var k :| 0 <= k < |ms| && IsFirst(ms, k) && RecordOf(ms[k], Strip(ms[k].name)) == Some(r);
      RecordName(ms[k], Strip(ms[k].name));
      FirstMeans(ms, k, r.name);
      RecordUnpacks(ms[k], r.name);
    }
  }

  lemma RecordsUnpacked(ms: seq<Member>)
    requires forall m :: m in ms ==> m.mode < 0x1000
    ensures Unpacked(ms, Records(ms))
  {
    hide TakeAll, FirstOfName, UnpacksAs, Ascii, StrippedFrom, Devices, IsInit, IsDevice, NodeRec, FromMember, Named;
    var rs := Records(ms);
    RecordsDistinct(ms);
    MembersUnpack(ms);
    InitMeans();
    InitNamed(ms);
    DevicesThere(ms);
    NothingElse(ms);
  }

  lemma InitNamed(ms: seq<Member>)
    ensures Named(ms, Ascii("init")) <==> INIT in TakeAll(ms).seen
  {
    NamedMeans(ms, Ascii("init"));
  }

  lemma DevicesThere(ms: seq<Member>)
    ensures forall d :: d in Devices() && !Named(ms, d.name) ==>
              exists r :: r in Records(ms) && IsDevice(r, d.name, d.permissions, d.major, d.minor)
  {
    hide TakeAll, Ascii, IsDevice, NodeRec, Named, Records;
    RecordsDistinct(ms);
    forall d | d in Devices() && !Named(ms, d.name)
      ensures exists r :: r in Records(ms) && IsDevice(r, d.name, d.permissions, d.major, d.minor)
    {
      var i :| 0 <= i < 8 && Devices()[i] == d;
      DeviceMeans(i);
      DeviceNamed(i);
      NamedMeans(ms, d.name);
      assert NodeRec(NODES[i]) in Records(ms);
    }
  }

  lemma DeviceNamed(i: nat)
    requires i < 8
    ensures Devices()[i].name != []
  {}

  lemma NothingElse(ms: seq<Member>)
    requires forall m :: m in ms ==> m.mode < 0x1000
    ensures forall r :: r in Records(ms) ==> FromMember(ms, r) || IsInit(r) || FromDevice(r)
  {
    hide TakeAll, Ascii, IsDevice, IsInit, NodeRec, FromMember, Devices;
    MembersUnpack(ms);
    InitMeans();
    var st := TakeAll(ms);
    NothingElseAdded(WithInit(st), st.seen, |NODES|);
    forall r | r in Records(ms) ensures FromMember(ms, r) || IsInit(r) || FromDevice(r) {
      if i :| 0 <= i < 8 && r == NodeRec(NODES[i]) {
        DeviceMeans(i);
        DeviceListed(i);
      }
    }
  }

  lemma DeviceListed(i: nat)
    requires i < 8
    ensures |Devices()| == 8 && Devices()[i] in Devices()
  {}

  /** A member whose numbers, name and data the format can carry. */
  predicate Carriable(m: Member) {
    && m.mode < 0x1000 && 0 <= m.uid < TWO32 && 0 <= m.gid < TWO32 && 0 <= m.mtime < TWO32
    && 0 <= m.devmajor < TWO32 && 0 <= m.devminor < TWO32
    && |m.content| + 64 < TWO32 && |m.name| + 1 < TWO32
    && 0 !in m.name && !StrippedFrom(Ascii("TRAILER!!!"), m.name)
  }

  lemma MemberStorable(m: Member, r: Rec)
    requires Carriable(m) && UnpacksAs(r, m, r.name) && StrippedFrom(r.name, m.name)
    ensures Storable(r)
  {
    hide Contains;
    TrailerIs();
    assert |Ascii("devtmpfs\t/dev\t\tdevtmpfs\tdefaults\t0\t0\n")| < 64;
    forall i | 0 <= i < |r.name| ensures r.name[i] != 0 {
      assert r.name[i] == m.name[|m.name| - |r.name| + i];
    }
  }

  lemma InitStorable(r: Rec)
    requires IsInit(r)
    ensures Storable(r)
  {
    TrailerIs();
    assert r.name[0] == 105;
  }

  lemma DeviceStorable(d: Device, r: Rec)
    requires d in Devices() && IsDevice(r, d.name, d.permissions, d.major, d.minor)
    ensures Storable(r)
  {
    TrailerIs();
    assert d.name[0] == 100 && |d.name| <= 11;
    assert 0 !in d.name;
  }

  /** What tar2cpio.py writes for a tar whose members the format can carry, with
      anything behind it, reads back as exactly what Unpacked says. */
  lemma ArchiveUnpacks(ms: seq<Member>, out: seq<Byte>, after: seq<Byte>)
    requires forall m :: m in ms ==> Carriable(m)
    requires out == EncodeAll(Records(ms)) + Encode(Rec(TRAILER, 0, 0, 0, 1, 0, [], 0, 0))
    ensures DecodeAll(out + after).Some? && Unpacked(ms, DecodeAll(out + after).value)
  {
    hide Records, EncodeAll, Encode, DecodeAll, UnpacksAs, IsInit, IsDevice, Devices, StrippedFrom, Storable, Carriable;
    forall m | m in ms ensures m.mode < 0x1000 {
      CarriableMode(m);
    }
    RecordsUnpacked(ms);
    forall r | r in Records(ms) ensures Storable(r) {
      if FromMember(ms, r) {
        var k :| 0 <= k < |ms| && FirstOfName(ms, k, r.name) && UnpacksAs(r, ms[k], r.name);
        MemberStorable(ms[k], r);
      } else if IsInit(r) {
        InitStorable(r);
      } else {
        var d :| d in Devices() && IsDevice(r, d.name, d.permissions, d.major, d.minor);
        DeviceStorable(d, r);
      }
    }
    InitramfsReadsBack(ms, after);
  }

  lemma CarriableMode(m: Member)
    requires Carriable(m)
    ensures m.mode < 0x1000
  {}
}
