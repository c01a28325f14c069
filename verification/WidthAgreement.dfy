/** The same script under a 32-bit and a 64-bit Lua.

    Intermediate values differ: a distance may wrap on the board, and the logical
    shift of a negative number gives different quotients. The bytes written are
    the same all the same; the decisions are too, unless a branch or jal whose
    true distance is out of range wraps back into it on the board. */
module WidthAgreement {
  import opened Words
  import opened Encoders
  import opened Relocate
  import opened Sites

  predicate Signed32(n: int) { -0x8000_0000 <= n < 0x8000_0000 }

  /** One address as the two Luas hold it. The host's is exact, and below 2^32; the
      board's is what 32 bits leave of it. */
  predicate SameAddress(board: Option<int>, host: Option<int>) {
    match host
    case None => board.None?
    case Some(h) => -0x8000_0000 <= h < TWO32 && board == Some(Norm(Board, h))
  }

  /** One symbol table under the two Luas. */
  ghost predicate SameSymbols(sb: seq<Symbol>, sh: seq<Symbol>) {
    |sb| == |sh| && forall k :: 0 <= k < |sh| ==> sb[k].name == sh[k].name && SameAddress(sb[k].addr, sh[k].addr)
  }

  /** Addends fit a board integer, and sites are offsets into an image it can hold. */
  ghost predicate FitsBoard(rels: seq<Reloc>) {
    forall r :: r in rels ==> Signed32(r.addend) && 0 <= r.at < 0x8000_0000
  }

  predicate Congruent(a: int, b: int) { a % TWO32 == b % TWO32 }

  /** Two edits that do the same to every word. */
  ghost predicate SameEdit(d: Edit, e: Edit) {
    && d.at == e.at && d.field == e.field
    && forall i: U32 :: NewWord(d.field, i, d.value) == NewWord(e.field, i, e.value)
  }

  ghost predicate SamePlan(p: Plan, q: Plan) {
    && |p.edits| == |q.edits|
    && (forall k :: 0 <= k < |p.edits| ==> SameEdit(p.edits[k], q.edits[k]))
    && SameHigh(p.hi20At, q.hi20At)
  }

  ghost predicate SameHigh(a: map<int, int>, b: map<int, int>) {
    && a.Keys == b.Keys
    && forall k :: k in a ==>
         0 <= k < 0x8000_0000 && Congruent(a[k], b[k]) && Norm(Board, a[k]) == a[k] && Norm(Host, b[k]) == b[k]
  }

  // -------------------------------------------------------------- same fields

  lemma FieldsCongruent(a: int, b: int)
    requires Congruent(a, b) && Norm(Board, a) == a && Norm(Host, b) == b
    ensures Hi20(Board, a) % 0x10_0000 == Hi20(Host, b) % 0x10_0000
    ensures Lo12(Board, a) == Lo12(Host, b)
  {
    hide Hi20, Lo12, Norm;
    HiLoSplit(Board, a);
    HiLoSplit(Host, b);
    var k := b / TWO32 - a / TWO32;
    assert b == a + TWO32 * k;
    DivShift(a + 0x800, 0x1000, 0x10_0000 * k);
    DivShift((a + 0x800) / 0x1000, 0x10_0000, k);
  }

  lemma SameU(at: int, s: nat, t: nat, a: int, b: int)
    requires a % 0x10_0000 == b % 0x10_0000
    ensures SameEdit(Edit(s, at, FieldU, a), Edit(t, at, FieldU, b))
  {}

  lemma SameData(at: int, s: nat, t: nat, f: Field, a: int, b: int)
    requires Congruent(a, b) && (f.Plus? || f.Minus? || f.Whole?)
    ensures SameEdit(Edit(s, at, f, a), Edit(t, at, f, b))
  {
    forall i: U32 ensures NewWord(f, i, a) == NewWord(f, i, b) {
      var k := b / TWO32 - a / TWO32;
      assert b == a + TWO32 * k;
      DivShift(i + a, TWO32, k);
      DivShift(i - a, TWO32, -k);
      DivShift(a, TWO32, k);
    }
  }

  // ------------------------------------------------------------- same values

  lemma ValuesCongruent(h: int, r: Reloc)
    requires -0x8000_0000 <= h < TWO32 && Signed32(r.addend) && Signed32(r.at)
    ensures var s := Norm(Board, h);
            && PcRel(Host, h, r) == h + r.addend - r.at && Absolute(Host, h, r) == h + r.addend
            && Congruent(PcRel(Board, s, r), PcRel(Host, h, r))
            && Congruent(Absolute(Board, s, r), Absolute(Host, h, r))
            && (Signed32(h + r.addend - r.at) ==> PcRel(Board, s, r) == h + r.addend - r.at)
            && Norm(Board, PcRel(Board, s, r)) == PcRel(Board, s, r)
            && Norm(Board, Absolute(Board, s, r)) == Absolute(Board, s, r)
    ensures Norm(Host, h + r.addend - r.at) == h + r.addend - r.at && Norm(Host, h + r.addend) == h + r.addend
  {
    hide Norm;
    HostExact(h + r.addend);
    HostExact(h + r.addend - r.at);
    BoardThrice(h, r);
  }

  lemma HostExact(n: int)
    requires -0x4_0000_0000 <= n <= 0x4_0000_0000
    ensures Norm(Host, n) == n
  {}

  /** Wrapping at every step is wrapping at the end. */
  lemma BoardThrice(h: int, r: Reloc)
    ensures var s := Norm(Board, h);
            && Absolute(Board, s, r) == Norm(Board, h + r.addend)
            && PcRel(Board, s, r) == Norm(Board, h + r.addend - r.at)
            && Norm(Board, PcRel(Board, s, r)) == PcRel(Board, s, r)
            && Norm(Board, Absolute(Board, s, r)) == Absolute(Board, s, r)
            && Congruent(PcRel(Board, s, r), h + r.addend - r.at)
            && Congruent(Absolute(Board, s, r), h + r.addend)
            && (Signed32(h + r.addend - r.at) ==> PcRel(Board, s, r) == h + r.addend - r.at)
  {
    hide Norm;
    NormOf(h, r.addend);
    NormOf(h + r.addend, 0 - r.at);
    NormOf(h + r.addend, 0);
    NormOf(h + r.addend - r.at, 0);
    NormResidue(Board, h + r.addend);
    NormResidue(Board, h + r.addend - r.at);
    if Signed32(h + r.addend - r.at) {
      NormFixed(Board, h + r.addend - r.at);
    }
  }

  lemma NormOf(n: int, x: int)
    ensures Norm(Board, Norm(Board, n) + x) == Norm(Board, n + x)
  {
    var q := (n + 0x8000_0000) / TWO32;
    assert Norm(Board, n) == n - q * TWO32;
    DivShift(n + x + 0x8000_0000, TWO32, -q);
  }

  /** The distance of a branch or jal, in unbounded integers, is one its
      instruction can encode. */
  ghost predicate TrulyInRange(syms: seq<Symbol>, r: Reloc) {
    var k := KindOf(r.rtype);
    match SymAddr(syms, r.sym)
    case None => true
    case Some(s) =>
      && (k.CondBranch? ==> InRange(s + r.addend - r.at, 0x1000))
      && (k.Jump? ==> InRange(s + r.addend - r.at, 0x10_0000))
  }

  ghost predicate Related(r: Reloc, a: int, b: int) {
    var k := KindOf(r.rtype);
    && Congruent(a, b) && Norm(Board, a) == a && Norm(Host, b) == b
    && (k.CondBranch? || k.Jump? ==> a == b)
  }

  lemma SymbolSame(sb: seq<Symbol>, sh: seq<Symbol>, k: int)
    requires SameSymbols(sb, sh)
    ensures SameAddress(SymAddr(sb, k), SymAddr(sh, k))
  {}

  /** Looking an address up finds the same site under both. */
  lemma SameSite(hb: map<int, int>, hh: map<int, int>, h: int)
    requires SameHigh(hb, hh) && -0x8000_0000 <= h < TWO32
    ensures h in hh <==> Norm(Board, h) in hb
    ensures h in hh ==> Norm(Board, h) == h
  {
    hide Congruent;
    if 0x8000_0000 <= h {
      assert Norm(Board, h) < 0;
    } else {
      NormFixed(Board, h);
    }
  }

  lemma ValuesAgree(sb: seq<Symbol>, sh: seq<Symbol>, hb: map<int, int>, hh: map<int, int>, r: Reloc)
    requires SameHigh(hb, hh) && Signed32(r.addend) && Signed32(r.at)
    requires SameAddress(SymAddr(sb, r.sym), SymAddr(sh, r.sym))
    ensures var a := ValueOf(Board, sb, hb, r); var b := ValueOf(Host, sh, hh, r);
            && (b.Some? ==> a.Some? && Related(r, a.value, b.value) && TrulyInRange(sh, r))
            && (a.Some? && TrulyInRange(sh, r) ==> b.Some?)
  {
    hide PcRel, Absolute, Norm, Congruent;
    Zero();
    if SymAddr(sh, r.sym).Some? {
      ValuesCongruent(SymAddr(sh, r.sym).value, r);
      SameSite(hb, hh, SymAddr(sh, r.sym).value);
    }
  }

  lemma Zero()
    ensures Congruent(0, 0) && Norm(Board, 0) == 0 && Norm(Host, 0) == 0
  {}

  lemma EditsAgree(src: nat, r: Reloc, a: int, b: int)
    requires Related(r, a, b)
    ensures var d := EditsFor(Board, src, r, a); var e := EditsFor(Host, src, r, b);
            |d| == |e| && forall k :: 0 <= k < |d| ==> SameEdit(d[k], e[k])
  {
    hide Hi20, Lo12, Norm, Congruent, NewWord;
    FieldsCongruent(a, b);
    SameU(r.at, src, src, Hi20(Board, a), Hi20(Host, b));
    if KindOf(r.rtype) in {Pcrel32, Set32, Add32, Sub32} {
      SameData(r.at, src, src, Plus, a, b);
      SameData(r.at, src, src, Minus, a, b);
      SameData(r.at, src, src, Whole, a, b);
    }
  }

  lemma {:induction false} PlansAgree(sb: seq<Symbol>, sh: seq<Symbol>, rels: seq<Reloc>)
    requires SameSymbols(sb, sh) && FitsBoard(rels)
    ensures var p := PlanAll(Board, sb, rels); var q := PlanAll(Host, sh, rels);
            && (q.Some? ==> p.Some? && SamePlan(p.value, q.value) && forall r :: r in rels ==> TrulyInRange(sh, r))
            && (p.Some? && (forall r :: r in rels ==> TrulyInRange(sh, r)) ==> q.Some?)
  {
    hide ValueOf, EditsFor, TrulyInRange, SameEdit, Congruent, Norm, SymAddr, SameSymbols;
    if rels != [] {
      var n := |rels| - 1;
      assert rels == rels[..n] + [rels[n]];
      PlansAgree(sb, sh, rels[..n]);
      var p := PlanAll(Board, sb, rels[..n]);
      var q := PlanAll(Host, sh, rels[..n]);
      if p.Some? && q.Some? {
        SymbolSame(sb, sh, rels[n].sym);
        ValuesAgree(sb, sh, p.value.hi20At, q.value.hi20At, rels[n]);
        StepAgrees(sb, sh, p.value, q.value, n, rels[n]);
      }
    }
  }

  lemma StepAgrees(sb: seq<Symbol>, sh: seq<Symbol>, p: Plan, q: Plan, n: nat, r: Reloc)
    requires SamePlan(p, q) && 0 <= r.at < 0x8000_0000
    requires var a := ValueOf(Board, sb, p.hi20At, r); var b := ValueOf(Host, sh, q.hi20At, r);
             b.Some? ==> a.Some? && Related(r, a.value, b.value)
    ensures var x := Extend(Board, sb, p, n, r); var y := Extend(Host, sh, q, n, r);
            y.Some? ==> x.Some? && SamePlan(x.value, y.value)
  {
    hide ValueOf, EditsFor, SameEdit, Congruent, Norm;
    var a := ValueOf(Board, sb, p.hi20At, r);
    var b := ValueOf(Host, sh, q.hi20At, r);
    if b.Some? {
      EditsAgree(n, r, a.value, b.value);
    }
  }

  lemma {:induction false} ExecAgrees(img: Image, d: seq<Edit>, e: seq<Edit>)
    requires |d| == |e| && forall k :: 0 <= k < |d| ==> SameEdit(d[k], e[k])
    ensures Exec(img, d) == Exec(img, e)
  {
    hide NewWord, Wr32, Rd32, Readable;
    if d != [] {
      var n := |d| - 1;
      ExecAgrees(img, d[..n], e[..n]);
      if Exec(img, d[..n]).Some? {
        OneAgrees(Exec(img, d[..n]).value, d[n], e[n]);
      }
    }
  }

  lemma OneAgrees(img: Image, d: Edit, e: Edit)
    requires SameEdit(d, e)
    ensures DoEdit(img, d) == DoEdit(img, e)
  {
    hide NewWord, Wr32, Rd32, Readable;
    if d.field.Whole? {
      WholeIgnoresOld(d.value, 0);
      WholeIgnoresOld(e.value, 0);
      assert NewWord(Whole, 0, d.value) == NewWord(Whole, 0, e.value);
    }
  }

  /** What the host accepts, the board accepts, and both write the same image. */
  lemma HostImageIsBoardImage(sb: seq<Symbol>, sh: seq<Symbol>, img: Image, rels: seq<Reloc>)
    requires SameSymbols(sb, sh) && FitsBoard(rels) && Relocated(Host, sh, img, rels).Some?
    ensures Relocated(Board, sb, img, rels) == Relocated(Host, sh, img, rels)
  {
    hide PlanAll, Exec, SameEdit, FitsBoard, SameHigh, SameSymbols;
    PlansAgree(sb, sh, rels);
    ExecAgrees(img, PlanAll(Board, sb, rels).value.edits, PlanAll(Host, sh, rels).value.edits);
  }

  /** What the board accepts, the host answers in the same way exactly when every
      branch and jal is truly in range. */
  lemma BoardImageIsHostImageIffInRange(sb: seq<Symbol>, sh: seq<Symbol>, img: Image, rels: seq<Reloc>)
    requires SameSymbols(sb, sh) && FitsBoard(rels) && Relocated(Board, sb, img, rels).Some?
    ensures Relocated(Host, sh, img, rels) == Relocated(Board, sb, img, rels)
            <==> forall r :: r in rels ==> TrulyInRange(sh, r)
  {
    hide PlanAll, Exec, SameEdit, FitsBoard, SameHigh, TrulyInRange, SameSymbols;
    PlansAgree(sb, sh, rels);
    if PlanAll(Host, sh, rels).Some? {
      ExecAgrees(img, PlanAll(Board, sb, rels).value.edits, PlanAll(Host, sh, rels).value.edits);
    }
  }

  /** The exception is real: a branch 2^32 - 2 bytes away is accepted by the board
      as one of -2, and refused by the host. */
  lemma WrappedBranchDisagrees()
    ensures var syms := [Symbol("far", Some(0x7fff_ffff))];
            var rels := [Reloc(R_BRANCH, 0, 0, 0x7fff_ffff)];
            var img := map[0 := 0x63, 1 := 0, 2 := 0, 3 := 0];
            && SameSymbols(syms, syms) && FitsBoard(rels)
            && Relocated(Board, syms, img, rels).Some? && Relocated(Host, syms, img, rels).None?
  {
    hide PcRel, DoEdit, NewWord, EditsFor, Exec, Norm;
    var syms := [Symbol("far", Some(0x7fff_ffff))];
    var r := Reloc(R_BRANCH, 0, 0, 0x7fff_ffff);
    var img: Image := map[0 := 0x63, 1 := 0, 2 := 0, 3 := 0];
    FarDistances(r);
    assert [r][..0] == [];
    BranchEdit(r, -2);
    assert [] + EditsFor(Board, 0, r, -2) == [Edit(0, 0, FieldB, -2)];
    ExecOne(img, Edit(0, 0, FieldB, -2));
    PatchReadable(img, Edit(0, 0, FieldB, -2));
    NormFixed(Board, 0x7fff_ffff);
    assert SameSymbols(syms, syms) && FitsBoard([r]);
    assert PlanAll(Board, syms, []) == Some(Plan([], map[]));
    assert ValueOf(Board, syms, map[], r) == Some(-2);
    assert PlanAll(Board, syms, [r]).Some?;
    assert PlanAll(Host, syms, [r]).None?;
  }

  lemma FarDistances(r: Reloc)
    requires r.at == 0 && r.addend == 0x7fff_ffff
    ensures PcRel(Board, 0x7fff_ffff, r) == -2 && PcRel(Host, 0x7fff_ffff, r) == 0xffff_fffe
  {
    NormFixed(Board, 0x7fff_ffff);
    ValuesCongruent(0x7fff_ffff, r);
  }

  lemma BranchEdit(r: Reloc, v: int)
    requires r.rtype == R_BRANCH
    ensures EditsFor(Board, 0, r, v) == [Edit(0, r.at, FieldB, v)]
  {}

  lemma PatchReadable(img: Image, e: Edit)
    requires Readable(img, e.at)
    ensures DoEdit(img, e).Some?
  {}

  // ------------------------------------------------------------ reading the ELF

  /** s32() at each width: on the board the byte assembly already wraps, and the
      script's literals 0x80000000 and 0x100000000 wrap too, to -2^31 and 0. */
  function S32(w: Width, u: U32): int {
    var v := Norm(w, u);
    if v >= Norm(w, 0x8000_0000) then Norm(w, v - Norm(w, 0x1_0000_0000)) else v
  }

  lemma S32IsSigned(w: Width, u: U32)
    ensures S32(w, u) == if u < 0x8000_0000 then u else u - TWO32
  {
    hide Norm;
    if w.Board? {
      BoardLiterals(u);
    } else {
      HostExact(u);
      HostExact(0x8000_0000);
      HostExact(0x1_0000_0000);
      HostExact(u - TWO32);
    }
  }

  lemma BoardLiterals(u: U32)
    ensures Norm(Board, u) == if u < 0x8000_0000 then u else u - TWO32
    ensures Norm(Board, 0x8000_0000) == -0x8000_0000 && Norm(Board, 0x1_0000_0000) == 0
    ensures Norm(Board, Norm(Board, u) - 0) == Norm(Board, u)
  {}
}
