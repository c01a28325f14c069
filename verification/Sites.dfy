/** What a relocation pass leaves in the image: bytes no relocation owns are as
    they were, a word owned by one relocation holds exactly what that relocation
    puts there, and a word shared by ADD32/SUB32 holds the sum of all of them. */
module Sites {
  import opened Words
  import opened Rv32
  import opened Encoders
  import opened Relocate

  predicate Apart(a: int, b: int) { a + 4 <= b || b + 4 <= a }

  // ------------------------------------------------------------ one edit

  lemma RdAfterWr(img: Image, at: int, v: U32)
    ensures Readable(Wr32(img, at, v), at)
    ensures Rd32(Wr32(img, at, v), at) == v
  {
    WordOfBytes(v);
  }

  lemma WrFrame(img: Image, at: int, v: U32, k: int)
    requires !(at <= k < at + 4)
    ensures k in Wr32(img, at, v) <==> k in img
    ensures k in img ==> Wr32(img, at, v)[k] == img[k]
  {}

  lemma RdFrame(img: Image, at: int, v: U32, b: int)
    requires Apart(at, b) && Readable(img, b)
    ensures Readable(Wr32(img, at, v), b)
    ensures Rd32(Wr32(img, at, v), b) == Rd32(img, b)
  {
    hide Wr32;
    WrFrame(img, at, v, b);
    WrFrame(img, at, v, b + 1);
    WrFrame(img, at, v, b + 2);
    WrFrame(img, at, v, b + 3);
  }

  /** The word an edit leaves at its own site. */
  function Written(img: Image, e: Edit): U32
    requires DoEdit(img, e).Some?
  {
    if e.field.Whole? then Wrap(e.value) else NewWord(e.field, Rd32(img, e.at), e.value)
  }

  lemma EditIsWrite(img: Image, e: Edit)
    requires DoEdit(img, e).Some?
    ensures DoEdit(img, e).value == Wr32(img, e.at, Written(img, e))
  {}

  // ------------------------------------------------- any sequence of edits

  /** Bytes outside every edited word are not touched. */
  lemma {:induction false} ExecFrame(img: Image, edits: seq<Edit>, k: int)
    requires Exec(img, edits).Some?
    requires forall e :: e in edits ==> !(e.at <= k < e.at + 4)
    ensures k in Exec(img, edits).value <==> k in img
    ensures k in img ==> Exec(img, edits).value[k] == img[k]
  {
    hide DoEdit, Wr32, Written;
    if edits != [] {
      var n := |edits| - 1;
      var mid := Exec(img, edits[..n]).value;
      ExecFrame(img, edits[..n], k);
      EditIsWrite(mid, edits[n]);
      WrFrame(mid, edits[n].at, Written(mid, edits[n]), k);
    }
  }

  /** What the edits of one word make of it, ignoring every other word. */
  function SiteWord(edits: seq<Edit>, at: int, w0: U32): U32 {
    if edits == [] then w0 else
      var n := |edits| - 1;
      var w := SiteWord(edits[..n], at, w0);
      if edits[n].at == at then NewWord(edits[n].field, w, edits[n].value) else w
  }

  lemma {:induction false} ExecSite(img: Image, edits: seq<Edit>, at: int)
    requires Readable(img, at) && Exec(img, edits).Some?
    requires forall e :: e in edits ==> e.at == at || Apart(e.at, at)
    ensures Readable(Exec(img, edits).value, at)
    ensures Rd32(Exec(img, edits).value, at) == SiteWord(edits, at, Rd32(img, at))
  {
    hide DoEdit, Wr32, Rd32, NewWord;
    if edits != [] {
      var n := |edits| - 1;
      var mid := Exec(img, edits[..n]).value;
      ExecSite(img, edits[..n], at);
      EditIsWrite(mid, edits[n]);
      if edits[n].at == at {
        RdAfterWr(mid, at, Written(mid, edits[n]));
        WholeIgnoresOld(edits[n].value, Rd32(mid, at));
      } else {
        RdFrame(mid, edits[n].at, Written(mid, edits[n]), at);
      }
    }
  }

  lemma WholeIgnoresOld(v: int, i: U32)
    ensures NewWord(Whole, i, v) == Wrap(v)
  {}

  lemma {:induction false} SiteWordAppend(a: seq<Edit>, b: seq<Edit>, at: int, w0: U32)
    ensures SiteWord(a + b, at, w0) == SiteWord(b, at, SiteWord(a, at, w0))
  {
    hide NewWord;
    if b == [] {
      assert a + b == a;
    } else {
      var n := |b| - 1;
      SiteWordAppend(a, b[..n], at, w0);
      assert (a + b)[..|a + b| - 1] == a + b[..n];
    }
  }

  lemma {:induction false} SiteWordElsewhere(edits: seq<Edit>, at: int, w0: U32)
    requires forall e :: e in edits ==> e.at != at
    ensures SiteWord(edits, at, w0) == w0
  {
    if edits != [] {
      SiteWordElsewhere(edits[..|edits| - 1], at, w0);
    }
  }

  lemma SiteWordOne(e: Edit, w0: U32)
    ensures SiteWord([e], e.at, w0) == NewWord(e.field, w0, e.value)
  {
    hide NewWord;
    assert [e][..0] == [];
  }

  lemma SiteWordTwo(d: Edit, e: Edit, w0: U32)
    requires d.at != e.at
    ensures SiteWord([d, e], d.at, w0) == NewWord(d.field, w0, d.value)
    ensures SiteWord([d, e], e.at, w0) == NewWord(e.field, w0, e.value)
  {
    hide NewWord;
    assert [d, e][..1] == [d];
    SiteWordOne(d, w0);
    SiteWordElsewhere([d], e.at, w0);
  }

  // --------------------------------------------- the edits of a relocation

  /** How many bytes from r.at a relocation owns. */
  function Extent(r: Reloc): int {
    match KindOf(r.rtype)
    case Skipped | Refused => 0
    case CallPair => 8
    case _ => 4
  }

  predicate Owns(r: Reloc, k: int) { r.at <= k < r.at + Extent(r) }

  predicate Disjoint(a: Reloc, b: Reloc) {
    Extent(a) == 0 || Extent(b) == 0 || a.at + Extent(a) <= b.at || b.at + Extent(b) <= a.at
  }

  /** No other relocation touches the bytes of relocation i. */
  ghost predicate Alone(rels: seq<Reloc>, i: nat)
    requires i < |rels|
  {
    forall j :: 0 <= j < |rels| && j != i ==> Disjoint(rels[i], rels[j])
  }

  lemma EditShape(w: Width, src: nat, r: Reloc, v: int, e: Edit)
    requires e in EditsFor(w, src, r, v)
    ensures e.src == src && (e.at == r.at || e.at == r.at + 4) && e.at + 4 <= r.at + Extent(r)
  {
    hide Hi20, Lo12;
  }

  lemma EditsWord(w: Width, src: nat, r: Reloc, v: int, e: Edit, w0: U32)
    requires e in EditsFor(w, src, r, v)
    ensures SiteWord(EditsFor(w, src, r, v), e.at, w0) == NewWord(e.field, w0, e.value)
  {
    hide Hi20, Lo12, NewWord;
    var es := EditsFor(w, src, r, v);
    if KindOf(r.rtype).CallPair? {
      SiteWordTwo(es[0], es[1], w0);
    } else {
      SiteWordOne(es[0], w0);
    }
  }

  /** The value relocation i works with when its turn comes. */
  function ValueAt(w: Width, syms: seq<Symbol>, rels: seq<Reloc>, i: nat): int
    requires i < |rels| && PlanAll(w, syms, rels).Some?
  {
    PlanPrefix(w, syms, rels, i);
    PlanPrefix(w, syms, rels, i + 1);
    assert rels[..i + 1][..i] == rels[..i];
    ValueOf(w, syms, PlanAll(w, syms, rels[..i]).value.hi20At, rels[i]).value
  }

  /** A relocation that did not stop the plan names a defined symbol. */
  lemma SymbolKnown(w: Width, syms: seq<Symbol>, rels: seq<Reloc>, i: nat)
    requires PlanAll(w, syms, rels).Some? && i < |rels| && !KindOf(rels[i].rtype).Skipped?
    ensures SymAddr(syms, rels[i].sym).Some?
  {
    hide EditsFor, HiAfter, Absolute, PcRel, Norm;
    PlanPrefix(w, syms, rels, i + 1);
    assert rels[..i + 1][..i] == rels[..i];
  }

  lemma ValueAtPrefix(w: Width, syms: seq<Symbol>, rels: seq<Reloc>, n: nat, i: nat)
    requires i < n <= |rels| && PlanAll(w, syms, rels).Some?
    ensures PlanAll(w, syms, rels[..n]).Some?
    ensures ValueAt(w, syms, rels[..n], i) == ValueAt(w, syms, rels, i)
  {
    hide ValueOf;
    PlanPrefix(w, syms, rels, n);
    assert rels[..n][..i] == rels[..i];
  }

  /** Nothing is edited that some relocation does not own. */
  lemma {:induction false} PlanOwned(w: Width, syms: seq<Symbol>, rels: seq<Reloc>, e: Edit)
    requires PlanAll(w, syms, rels).Some? && e in PlanAll(w, syms, rels).value.edits
    ensures e.src < |rels|
    ensures var r := rels[e.src]; (e.at == r.at || e.at == r.at + 4) && e.at + 4 <= r.at + Extent(r)
  {
    hide ValueOf, EditsFor, Extent;
    var n := |rels| - 1;
    var p := PlanAll(w, syms, rels[..n]).value;
    if e in p.edits {
      PlanOwned(w, syms, rels[..n], e);
    } else {
      EditShape(w, n, rels[n], ValueOf(w, syms, p.hi20At, rels[n]).value, e);
    }
  }

  /** The edits of a relocation that is alone determine its words. */
  lemma {:induction false} AloneSite(w: Width, syms: seq<Symbol>, rels: seq<Reloc>, i: nat, e: Edit, w0: U32)
    requires PlanAll(w, syms, rels).Some? && i < |rels| && Alone(rels, i)
    requires e in EditsFor(w, i, rels[i], ValueAt(w, syms, rels, i))
    ensures SiteWord(PlanAll(w, syms, rels).value.edits, e.at, w0) == NewWord(e.field, w0, e.value)
  {
    hide ValueOf, EditsFor, NewWord, Extent;
    var n := |rels| - 1;
    var p := PlanAll(w, syms, rels[..n]).value;
    var v := ValueOf(w, syms, p.hi20At, rels[n]).value;
    var es := EditsFor(w, n, rels[n], v);
    SiteWordAppend(p.edits, es, e.at, w0);
    EditShape(w, i, rels[i], ValueAt(w, syms, rels, i), e);
    if i == n {
      forall d | d in p.edits ensures d.at != e.at {
        PlanOwned(w, syms, rels[..n], d);
        assert Disjoint(rels[i], rels[d.src]);
      }
      SiteWordElsewhere(p.edits, e.at, w0);
      EditsWord(w, i, rels[i], v, e, w0);
    } else {
      ValueAtPrefix(w, syms, rels, n, i);
      AloneSite(w, syms, rels[..n], i, e, w0);
      forall d | d in es ensures d.at != e.at {
        EditShape(w, n, rels[n], v, d);
        assert Disjoint(rels[i], rels[n]);
      }
      SiteWordElsewhere(es, e.at, NewWord(e.field, w0, e.value));
    }
  }

  // ------------------------------------------------------------ the whole pass

  /** A byte that no relocation owns comes out as it went in. */
  lemma UnownedBytes(w: Width, syms: seq<Symbol>, img: Image, rels: seq<Reloc>, k: int)
    requires Relocated(w, syms, img, rels).Some?
    requires forall j :: 0 <= j < |rels| ==> !Owns(rels[j], k)
    ensures var out := Relocated(w, syms, img, rels).value;
            (k in out <==> k in img) && (k in img ==> out[k] == img[k])
  {
    hide ValueOf, EditsFor, Extent, PlanAll, Exec;
    var edits := PlanAll(w, syms, rels).value.edits;
    forall e | e in edits ensures !(e.at <= k < e.at + 4) {
      PlanOwned(w, syms, rels, e);
      assert !Owns(rels[e.src], k);
    }
    ExecFrame(img, edits, k);
  }

  /** A word that one relocation owns comes out as that relocation alone makes
      it from the word that was there. */
  lemma AloneWord(w: Width, syms: seq<Symbol>, img: Image, rels: seq<Reloc>, i: nat, e: Edit)
    requires Relocated(w, syms, img, rels).Some? && i < |rels| && Alone(rels, i)
    requires e in EditsFor(w, i, rels[i], ValueAt(w, syms, rels, i)) && Readable(img, e.at)
    ensures var out := Relocated(w, syms, img, rels).value;
            Readable(out, e.at) && Rd32(out, e.at) == NewWord(e.field, Rd32(img, e.at), e.value)
  {
    hide ValueOf, EditsFor, ValueAt, NewWord, Rd32, PlanAll, Exec;
    var edits := PlanAll(w, syms, rels).value.edits;
    EditShape(w, i, rels[i], ValueAt(w, syms, rels, i), e);
    forall d | d in edits ensures d.at == e.at || Apart(d.at, e.at) {
      PlanOwned(w, syms, rels, d);
      assert d.src != i ==> Disjoint(rels[i], rels[d.src]);
    }
    ExecSite(img, edits, e.at);
    AloneSite(w, syms, rels, i, e, Rd32(img, e.at));
  }

  // ------------------------------------------------------ only the immediate

  /** Two instruction words that differ at most in the bits of this immediate. */
  predicate KeepsRest(f: Field, a: U32, b: U32) {
    match f
    case FieldU | FieldJ => a % 0x1000 == b % 0x1000
    case FieldI => a % 0x10_0000 == b % 0x10_0000
    case FieldS | FieldB => a % 0x80 == b % 0x80 && a / 0x1000 % 0x2000 == b / 0x1000 % 0x2000
    case Plus | Minus | Whole => true
  }

  lemma NewWordKeepsRest(f: Field, i: U32, v: int)
    ensures KeepsRest(f, NewWord(f, i, v), i)
  {
    hide PutS, PutB, PutJ;
    match f
    case FieldS => OtherFieldsS(i, v);
    case FieldB => OtherFieldsB(i, v);
    case FieldJ => OtherFieldsJ(i, v);
    case _ =>
  }
}
