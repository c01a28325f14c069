/** The relocation pass of board/mkflt.lua.

    The image is a Lua table of bytes: reading a missing byte is an error that
    ends the script, while a write past the end quietly extends the table. The
    specification splits the pass in two: a plan, which turns relocations into
    edits of 32-bit words and never looks at the image, and the execution of
    that plan on an image. The class at the end does both interleaved, in place. */
module Relocate {
  import opened Words
  import opened Rv32
  import opened Encoders

  type Image = map<int, Byte>

  datatype Symbol = Symbol(name: string, addr: Option<int>)

  /** A relocation at image offset `at`. */
  datatype Reloc = Reloc(rtype: int, at: int, sym: int, addend: int)

  const R_NONE := 0
  const R_PLAIN32 := 1
  const R_BRANCH := 16
  const R_JAL := 17
  const R_CALL := 18
  const R_CALL_PLT := 19
  const R_GOT_HI20 := 20
  const R_PCREL_HI20 := 23
  const R_PCREL_LO12_I := 24
  const R_PCREL_LO12_S := 25
  const R_HI20 := 26
  const R_LO12_I := 27
  const R_LO12_S := 28
  const R_ADD32 := 35
  const R_SUB32 := 39
  const R_RELAX := 51
  const R_SET32 := 56
  const R_PCREL32 := 57

  datatype Kind =
    | Skipped | Refused
    | PcrelHi | PcrelLoI | PcrelLoS
    | AbsHi | AbsLoI | AbsLoS
    | CondBranch | Jump | CallPair
    | Pcrel32 | Add32 | Sub32 | Set32

  /** Every number the script does not list ends in an error, and so do the
      listed ones that need a linker, a GOT or load-time fixups. */
  function KindOf(rtype: int): Kind {
    if rtype == R_NONE || rtype == R_RELAX then Skipped
    else if rtype == R_PCREL32 then Pcrel32
    else if rtype == R_PCREL_HI20 then PcrelHi
    else if rtype == R_PCREL_LO12_I then PcrelLoI
    else if rtype == R_PCREL_LO12_S then PcrelLoS
    else if rtype == R_HI20 then AbsHi
    else if rtype == R_LO12_I then AbsLoI
    else if rtype == R_LO12_S then AbsLoS
    else if rtype == R_BRANCH then CondBranch
    else if rtype == R_JAL then Jump
    else if rtype == R_CALL || rtype == R_CALL_PLT then CallPair
    else if rtype == R_ADD32 then Add32
    else if rtype == R_SUB32 then Sub32
    else if rtype == R_SET32 then Set32
    else Refused
  }

  // -------------------------------------------------------------------- plan

  datatype Field = FieldU | FieldI | FieldS | FieldB | FieldJ | Plus | Minus | Whole

  /** Replace the word at `at`; `src` is the relocation that asked for it. */
  datatype Edit = Edit(src: nat, at: int, field: Field, value: int)

  function SymAddr(syms: seq<Symbol>, k: int): Option<int> {
    if 0 <= k < |syms| then syms[k].addr else None
  }

  predicate InRange(v: int, limit: int) { -limit <= v < limit }

  /** S + A, and S + A - at, as the integers of this width compute them. */
  function Absolute(w: Width, s: int, r: Reloc): int { Norm(w, s + r.addend) }

  function PcRel(w: Width, s: int, r: Reloc): int { Norm(w, Absolute(w, s, r) - r.at) }

  /** The value a relocation works with, or None where the script stops. */
  function ValueOf(w: Width, syms: seq<Symbol>, hi: map<int, int>, r: Reloc): Option<int> {
    var k := KindOf(r.rtype);
    if k.Skipped? then Some(0)
    else if k.Refused? then None
    else match SymAddr(syms, r.sym)
      case None => None
      case Some(s) =>
        if k.PcrelLoI? || k.PcrelLoS? then (if s in hi then Some(hi[s]) else None)
        else if k.AbsHi? || k.AbsLoI? || k.AbsLoS? || k.Add32? || k.Sub32? || k.Set32? then
          Some(Absolute(w, s, r))
        else if k.CondBranch? && !InRange(PcRel(w, s, r), 0x1000) then None
        else if k.Jump? && !InRange(PcRel(w, s, r), 0x10_0000) then None
        else Some(PcRel(w, s, r))
  }

  function EditsFor(w: Width, src: nat, r: Reloc, v: int): seq<Edit> {
    match KindOf(r.rtype)
    case Skipped | Refused => []
    case PcrelHi | AbsHi => [Edit(src, r.at, FieldU, Hi20(w, v))]
    case PcrelLoI | AbsLoI => [Edit(src, r.at, FieldI, Lo12(w, v))]
    case PcrelLoS | AbsLoS => [Edit(src, r.at, FieldS, Lo12(w, v))]
    case CondBranch => [Edit(src, r.at, FieldB, v)]
    case Jump => [Edit(src, r.at, FieldJ, v)]
    case CallPair => [Edit(src, r.at, FieldU, Hi20(w, v)), Edit(src, r.at + 4, FieldI, Lo12(w, v))]
    case Pcrel32 | Set32 => [Edit(src, r.at, Whole, v)]
    case Add32 => [Edit(src, r.at, Plus, v)]
    case Sub32 => [Edit(src, r.at, Minus, v)]
  }

  datatype Plan = Plan(edits: seq<Edit>, hi20At: map<int, int>)

  function Extend(w: Width, syms: seq<Symbol>, p: Plan, src: nat, r: Reloc): Option<Plan> {
    match ValueOf(w, syms, p.hi20At, r)
    case None => None
    case Some(v) =>
      Some(Plan(p.edits + EditsFor(w, src, r, v), HiAfter(p.hi20At, r, v)))
  }

  function HiAfter(hi: map<int, int>, r: Reloc, v: int): map<int, int> {
    if KindOf(r.rtype).PcrelHi? then hi[r.at := v] else hi
  }

  function PlanAll(w: Width, syms: seq<Symbol>, rels: seq<Reloc>): Option<Plan> {
    if rels == [] then Some(Plan([], map[])) else
      var n := |rels| - 1;
      match PlanAll(w, syms, rels[..n])
      case None => None
      case Some(p) => Extend(w, syms, p, n, rels[n])
  }

  // --------------------------------------------------------------- execution

  predicate Readable(img: Image, at: int) {
    at in img && at + 1 in img && at + 2 in img && at + 3 in img
  }

  function Rd32(img: Image, at: int): U32
    requires Readable(img, at)
  {
    Word(img[at], img[at + 1], img[at + 2], img[at + 3])
  }

  function Wr32(img: Image, at: int, v: U32): Image {
    img[at := v % 0x100][at + 1 := v / 0x100 % 0x100]
       [at + 2 := v / 0x1_0000 % 0x100][at + 3 := v / 0x100_0000]
  }

  function NewWord(f: Field, i: U32, v: int): U32 {
    match f
    case FieldU => PutU(i, v)
    case FieldI => PutI(i, v)
    case FieldS => PutS(i, v)
    case FieldB => PutB(i, v)
    case FieldJ => PutJ(i, v)
    case Plus => Wrap(i + v)
    case Minus => Wrap(i - v)
    case Whole => Wrap(v)
  }

  function DoEdit(img: Image, e: Edit): Option<Image> {
    if e.field.Whole? then Some(Wr32(img, e.at, Wrap(e.value)))
    else if Readable(img, e.at) then Some(Wr32(img, e.at, NewWord(e.field, Rd32(img, e.at), e.value)))
    else None
  }

  function Exec(img: Image, edits: seq<Edit>): Option<Image> {
    if edits == [] then Some(img) else
      var n := |edits| - 1;
      match Exec(img, edits[..n])
      case None => None
      case Some(mid) => DoEdit(mid, edits[n])
  }

  /** The whole pass: None where the script would die. */
  function Relocated(w: Width, syms: seq<Symbol>, img: Image, rels: seq<Reloc>): Option<Image> {
    match PlanAll(w, syms, rels)
    case None => None
    case Some(p) => Exec(img, p.edits)
  }

  // ------------------------------------------------------ prefixes of a pass

  lemma {:induction false} ExecAppend(img: Image, a: seq<Edit>, b: seq<Edit>)
    ensures Exec(img, a + b) == match Exec(img, a) case None => None case Some(mid) => Exec(mid, b)
  {
    if b == [] {
      assert a + b == a;
    } else {
      var n := |b| - 1;
      ExecAppend(img, a, b[..n]);
      assert (a + b)[..|a + b| - 1] == a + b[..n];
    }
  }

  lemma {:induction false} PlanPrefix(w: Width, syms: seq<Symbol>, rels: seq<Reloc>, i: nat)
    requires i <= |rels|
    requires PlanAll(w, syms, rels).Some?
    ensures PlanAll(w, syms, rels[..i]).Some?
    ensures PlanAll(w, syms, rels[..i]).value.edits <= PlanAll(w, syms, rels).value.edits
  {
    if i == |rels| {
      assert rels[..i] == rels;
    } else {
      var n := |rels| - 1;
      PlanPrefix(w, syms, rels[..n], i);
      assert rels[..n][..i] == rels[..i];
    }
  }

  lemma ExecNil(img: Image)
    ensures Exec(img, []) == Some(img)
  {}

  lemma ExecOne(img: Image, e: Edit)
    ensures Exec(img, [e]) == DoEdit(img, e)
  {
    assert [e][..0] == [];
    assert Exec(img, []) == Some(img);
  }

  lemma ExecTwo(img: Image, d: Edit, e: Edit)
    ensures Exec(img, [d, e]) == match DoEdit(img, d) case None => None case Some(mid) => DoEdit(mid, e)
  {
    assert [d, e][..1] == [d];
    ExecOne(img, d);
  }

  /** A pass that stops at one relocation stops, whatever follows it. */
  lemma StoppedAt(w: Width, syms: seq<Symbol>, img: Image, rels: seq<Reloc>, k: nat, p: Plan, mid: Image)
    requires k < |rels|
    requires PlanAll(w, syms, rels[..k]) == Some(p)
    requires Exec(img, p.edits) == Some(mid)
    requires var v := ValueOf(w, syms, p.hi20At, rels[k]);
             v.Some? ==> Exec(mid, EditsFor(w, k, rels[k], v.value)).None?
    ensures Relocated(w, syms, img, rels).None?
  {
    hide ValueOf, EditsFor, HiAfter, DoEdit, Exec;
    if PlanAll(w, syms, rels).Some? {
      PlanPrefix(w, syms, rels, k + 1);
      assert rels[..k + 1][..k] == rels[..k];
      var es := EditsFor(w, k, rels[k], ValueOf(w, syms, p.hi20At, rels[k]).value);
      ExecAppend(img, p.edits, es);
      var all := PlanAll(w, syms, rels).value.edits;
      var part := p.edits + es;
      assert all == part + all[|part|..];
      ExecAppend(img, part, all[|part|..]);
    }
  }

  // ---------------------------------------------------- the pass in the script

  /** The script's mutable state, and the pass over it. */
  class Linker {
    const width: Width
    const symbols: seq<Symbol>
    var image: Image
    var hi20At: map<int, int>

    constructor (w: Width, syms: seq<Symbol>, img: Image)
      ensures width == w && symbols == syms && image == img && hi20At == map[]
    {
      width, symbols, image, hi20At := w, syms, img, map[];
    }

    method Store32(at: int, v: U32)
      modifies this`image
      ensures image == Wr32(old(image), at, v)
    {
      image := image[at := v % 0x100];
      image := image[at + 1 := v / 0x100 % 0x100];
      image := image[at + 2 := v / 0x1_0000 % 0x100];
      image := image[at + 3 := v / 0x100_0000];
    }

    /** Read a word, put a value into one of its fields, write it back. */
    method Patch(ghost src: nat, at: int, f: Field, v: int) returns (ok: bool)
      requires !f.Whole?
      modifies this`image
      ensures DoEdit(old(image), Edit(src, at, f, v)) == if ok then Some(image) else None
    {
      if !Readable(image, at) {
        return false;
      }
      Store32(at, NewWord(f, Rd32(image, at), v));
      return true;
    }

    /** auipc: remember what was computed, for the low halves that name this site. */
    method HighHalf(src: nat, r: Reloc) returns (ok: bool)
      requires KindOf(r.rtype).PcrelHi?
      modifies this
      ensures Applied(old(image), old(hi20At), src, r, ok)
    {
      hide NewWord, PcRel, Absolute, Hi20, Lo12, DoEdit, Exec;
      var s := SymAddr(symbols, r.sym);
      if s.None? {
        return false;
      }
      var v := PcRel(width, s.value, r);
      hi20At := hi20At[r.at := v];
      ghost var e := Edit(src, r.at, FieldU, Hi20(width, v));
      ExecOne(image, e);
      ok := Patch(src, r.at, FieldU, Hi20(width, v));
    }

    /** The symbol of a low half is the label on its auipc, not its target. */
    method LowHalf(src: nat, r: Reloc) returns (ok: bool)
      requires KindOf(r.rtype).PcrelLoI? || KindOf(r.rtype).PcrelLoS?
      modifies this
      ensures Applied(old(image), old(hi20At), src, r, ok)
    {
      hide NewWord, PcRel, Absolute, Hi20, Lo12, DoEdit, Exec;
      var site := SymAddr(symbols, r.sym);
      if site.None? || site.value !in hi20At {
        return false;
      }
      var lo := Lo12(width, hi20At[site.value]);
      var f := if r.rtype == R_PCREL_LO12_I then FieldI else FieldS;
      ExecOne(image, Edit(src, r.at, f, lo));
      ok := Patch(src, r.at, f, lo);
    }

    method AbsoluteField(src: nat, r: Reloc) returns (ok: bool)
      requires KindOf(r.rtype).AbsHi? || KindOf(r.rtype).AbsLoI? || KindOf(r.rtype).AbsLoS?
      modifies this
      ensures Applied(old(image), old(hi20At), src, r, ok)
    {
      hide NewWord, PcRel, Absolute, Hi20, Lo12, DoEdit, Exec;
      var s := SymAddr(symbols, r.sym);
      if s.None? {
        return false;
      }
      var v := Absolute(width, s.value, r);
      var f := if r.rtype == R_HI20 then FieldU else if r.rtype == R_LO12_I then FieldI else FieldS;
      var x := if r.rtype == R_HI20 then Hi20(width, v) else Lo12(width, v);
      ExecOne(image, Edit(src, r.at, f, x));
      ok := Patch(src, r.at, f, x);
    }

    method Direct(src: nat, r: Reloc) returns (ok: bool)
      requires KindOf(r.rtype).CondBranch? || KindOf(r.rtype).Jump?
      modifies this
      ensures Applied(old(image), old(hi20At), src, r, ok)
    {
      hide NewWord, PcRel, Absolute, Hi20, Lo12, DoEdit, Exec;
      var s := SymAddr(symbols, r.sym);
      if s.None? {
        return false;
      }
      var v := PcRel(width, s.value, r);
      if !InRange(v, if r.rtype == R_BRANCH then 0x1000 else 0x10_0000) {
        return false;
      }
      var f := if r.rtype == R_BRANCH then FieldB else FieldJ;
      ExecOne(image, Edit(src, r.at, f, v));
      ok := Patch(src, r.at, f, v);
    }

    /** auipc and jalr patched together. */
    method Pair(src: nat, r: Reloc) returns (ok: bool)
      requires KindOf(r.rtype).CallPair?
      modifies this
      ensures Applied(old(image), old(hi20At), src, r, ok)
    {
      hide NewWord, PcRel, Absolute, Hi20, Lo12, DoEdit, Exec;
      var s := SymAddr(symbols, r.sym);
      if s.None? {
        return false;
      }
      var v := PcRel(width, s.value, r);
      var hi, lo := Hi20(width, v), Lo12(width, v);
      ExecTwo(image, Edit(src, r.at, FieldU, hi), Edit(src, r.at + 4, FieldI, lo));
      ok := Patch(src, r.at, FieldU, hi);
      if ok {
        ok := Patch(src, r.at + 4, FieldI, lo);
      }
    }

    method DataWord(src: nat, r: Reloc) returns (ok: bool)
      requires var k := KindOf(r.rtype); k.Pcrel32? || k.Add32? || k.Sub32? || k.Set32?
      modifies this
      ensures Applied(old(image), old(hi20At), src, r, ok)
    {
      hide NewWord, PcRel, Absolute, Exec, Wrap, Wr32;
      var s := SymAddr(symbols, r.sym);
      if s.None? {
        return false;
      }
      var v := if r.rtype == R_PCREL32 then PcRel(width, s.value, r) else Absolute(width, s.value, r);
      if r.rtype == R_ADD32 || r.rtype == R_SUB32 {
        var f := if r.rtype == R_ADD32 then Plus else Minus;
        ExecOne(image, Edit(src, r.at, f, v));
        ok := Patch(src, r.at, f, v);
      } else {
        ExecOne(image, Edit(src, r.at, Whole, v));
        Store32(r.at, Wrap(v));
        ok := true;
      }
    }

    /** One pass of the inner loop; false is where the script dies. */
    method Apply(src: nat, r: Reloc) returns (ok: bool)
      modifies this
      ensures Applied(old(image), old(hi20At), src, r, ok)
    {
      match KindOf(r.rtype)
      case Skipped =>
        ok := true;
      case Refused =>
        ok := false;
      case PcrelHi =>
        ok := HighHalf(src, r);
      case PcrelLoI | PcrelLoS =>
        ok := LowHalf(src, r);
      case AbsHi | AbsLoI | AbsLoS =>
        ok := AbsoluteField(src, r);
      case CondBranch | Jump =>
        ok := Direct(src, r);
      case CallPair =>
        ok := Pair(src, r);
      case Pcrel32 | Add32 | Sub32 | Set32 =>
        ok := DataWord(src, r);
    }

    /** The relocation loop: it finishes exactly when the specification gives an
        image, and then holds that image. */
    method RelocateAll(rels: seq<Reloc>) returns (ok: bool)
      requires hi20At == map[]
      modifies this
      ensures Relocated(width, symbols, old(image), rels) == if ok then Some(image) else None
    {
      hide ValueOf, EditsFor, HiAfter, DoEdit, Exec;
      ghost var p := Plan([], map[]);
      ExecNil(image);
      var k := 0;
      while k < |rels|
        invariant 0 <= k <= |rels|
        invariant PlanAll(width, symbols, rels[..k]) == Some(p)
        invariant hi20At == p.hi20At
        invariant Exec(old(image), p.edits) == Some(image)
      {
        ghost var img0, hi0 := image, hi20At;
        ok := Apply(k, rels[k]);
        assert rels[..k + 1][..k] == rels[..k];
        if !ok {
          StoppedAt(width, symbols, old(image), rels, k, p, img0);
          return;
        }
        ExecAppend(old(image), p.edits, EditsFor(width, k, rels[k], ValueOf(width, symbols, hi0, rels[k]).value));
        p := Extend(width, symbols, p, k, rels[k]).value;
        k := k + 1;
      }
      assert rels[..k] == rels;
      ok := true;
    }

    /** What one relocation does to the two tables. */
    ghost predicate Applied(img: Image, hi: map<int, int>, src: nat, r: Reloc, ok: bool)
      reads this
    {
      match ValueOf(width, symbols, hi, r)
      case None => !ok
      case Some(v) =>
        match Exec(img, EditsFor(width, src, r, v))
        case None => !ok
        case Some(done) => ok && image == done && hi20At == HiAfter(hi, r, v)
    }
  }
}
