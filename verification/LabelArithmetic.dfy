/** `.word a - b` leaves an ADD32 and a SUB32 on one word. Any number of them may
    share a site: the word ends up as it was plus every added address and minus
    every subtracted one, modulo 2^32, in whatever order they were applied. */
module LabelArithmetic {
  import opened Words
  import opened Rv32
  import opened Encoders
  import opened Relocate
  import opened Sites

  predicate IsSum(r: Reloc) { KindOf(r.rtype).Add32? || KindOf(r.rtype).Sub32? }

  /** What one relocation contributes to the word at `site`: the plain sum S + A
      or its negation, in unbounded integers. */
  function Contribution(syms: seq<Symbol>, r: Reloc, site: int): int {
    if r.at != site || !IsSum(r) || SymAddr(syms, r.sym).None? then 0
    else if KindOf(r.rtype).Add32? then SymAddr(syms, r.sym).value + r.addend
    else -(SymAddr(syms, r.sym).value + r.addend)
  }

  function Net(syms: seq<Symbol>, rels: seq<Reloc>, site: int): int {
    if rels == [] then 0
    else Net(syms, rels[..|rels| - 1], site) + Contribution(syms, rels[|rels| - 1], site)
  }

  /** Every relocation that touches the word at `site` is a sum exactly there. */
  ghost predicate OnlySumsAt(rels: seq<Reloc>, site: int) {
    forall r :: r in rels ==>
      || (IsSum(r) && r.at == site)
      || Extent(r) == 0 || r.at + Extent(r) <= site || site + 4 <= r.at
  }

  lemma WrapSum(w0: int, net: int, x: int, y: int)
    requires x % TWO32 == y % TWO32
    ensures Wrap(Wrap(w0 + net) + x) == Wrap(w0 + (net + y))
    ensures Wrap(Wrap(w0 + net) - x) == Wrap(w0 + (net - y))
  {
    var q := (w0 + net) / TWO32;
    var k := x / TWO32 - y / TWO32;
    assert x == y + TWO32 * k;
    DivShift(w0 + (net + y), TWO32, k - q);
    DivShift(w0 + (net - y), TWO32, -k - q);
  }

  lemma SumStep(w: Width, syms: seq<Symbol>, n: nat, r: Reloc, hi: map<int, int>, site: int, w0: U32, net: int)
    requires IsSum(r) && r.at == site && ValueOf(w, syms, hi, r).Some?
    ensures SiteWord(EditsFor(w, n, r, ValueOf(w, syms, hi, r).value), site, Wrap(w0 + net))
            == Wrap(w0 + (net + Contribution(syms, r, site)))
  {
    hide Wrap, Norm;
    var v := ValueOf(w, syms, hi, r).value;
    var sum := SymAddr(syms, r.sym).value + r.addend;
    NormResidue(w, sum);
    WrapSum(w0, net, v, sum);
    var f := if KindOf(r.rtype).Add32? then Plus else Minus;
    SiteWordOne(Edit(n, site, f, v), Wrap(w0 + net));
  }

  lemma {:induction false} SumsAccumulate(w: Width, syms: seq<Symbol>, rels: seq<Reloc>, site: int, w0: U32)
    requires PlanAll(w, syms, rels).Some? && OnlySumsAt(rels, site)
    ensures SiteWord(PlanAll(w, syms, rels).value.edits, site, w0) == Wrap(w0 + Net(syms, rels, site))
  {
    hide ValueOf, EditsFor, NewWord, Extent, Contribution, IsSum;
    if rels != [] {
      var n := |rels| - 1;
      var p := PlanAll(w, syms, rels[..n]).value;
      var v := ValueOf(w, syms, p.hi20At, rels[n]).value;
      var es := EditsFor(w, n, rels[n], v);
      var net := Net(syms, rels[..n], site);
      SumsAccumulate(w, syms, rels[..n], site, w0);
      SiteWordAppend(p.edits, es, site, w0);
      if IsSum(rels[n]) && rels[n].at == site {
        SumStep(w, syms, n, rels[n], p.hi20At, site, w0, net);
      } else {
        forall d | d in es ensures d.at != site {
          EditShape(w, n, rels[n], v, d);
        }
        SiteWordElsewhere(es, site, Wrap(w0 + net));
        NoContribution(syms, rels[n], site);
      }
    }
  }

  lemma NoContribution(syms: seq<Symbol>, r: Reloc, site: int)
    requires !(IsSum(r) && r.at == site)
    ensures Contribution(syms, r, site) == 0
  {}

  /** The final word of a shared site. */
  lemma SharedWord(w: Width, syms: seq<Symbol>, img: Image, rels: seq<Reloc>, site: int)
    requires Relocated(w, syms, img, rels).Some? && OnlySumsAt(rels, site) && Readable(img, site)
    ensures var out := Relocated(w, syms, img, rels).value;
            Readable(out, site) && Rd32(out, site) == Wrap(Rd32(img, site) + Net(syms, rels, site))
  {
    hide Rd32, PlanAll, Exec, Extent, IsSum, Net;
    var edits := PlanAll(w, syms, rels).value.edits;
    forall d | d in edits ensures d.at == site || Apart(d.at, site) {
      PlanOwned(w, syms, rels, d);
      SumIsWord(rels[d.src]);
      assert rels[d.src] in rels;
    }
    ExecSite(img, edits, site);
    SumsAccumulate(w, syms, rels, site, Rd32(img, site));
  }

  lemma SumIsWord(r: Reloc)
    ensures IsSum(r) ==> Extent(r) == 4
  {}

  /** The contributions add up to the same number in any order. */
  lemma {:induction false} NetOrderFree(syms: seq<Symbol>, a: seq<Reloc>, b: seq<Reloc>, site: int)
    requires multiset(a) == multiset(b)
    ensures Net(syms, a, site) == Net(syms, b, site)
  {
    hide Contribution;
    if a == [] {
      assert |b| == |multiset(b)|;
    } else {
      var n := |a| - 1;
      var x := a[n];
      assert x in multiset(a);
      var k :| 0 <= k < |b| && b[k] == x;
      var rest := b[..k] + b[k + 1..];
      SameRest(a, b, k);
      NetOrderFree(syms, a[..n], rest, site);
      NetRemove(syms, b, k, site);
    }
  }

  lemma SameRest(a: seq<Reloc>, b: seq<Reloc>, k: nat)
    requires multiset(a) == multiset(b) && a != [] && k < |b| && b[k] == a[|a| - 1]
    ensures multiset(a[..|a| - 1]) == multiset(b[..k] + b[k + 1..])
  {
    var x := multiset{b[k]};
    var front, rest := multiset(a[..|a| - 1]), multiset(b[..k] + b[k + 1..]);
    assert a == a[..|a| - 1] + [b[k]];
    assert b == b[..k] + ([b[k]] + b[k + 1..]);
    assert multiset(a) == front + x;
    assert multiset(b) == rest + x;
    assert front == (front + x) - x;
    assert rest == (rest + x) - x;
  }

  lemma {:induction false} NetRemove(syms: seq<Symbol>, b: seq<Reloc>, k: nat, site: int)
    requires k < |b|
    ensures Net(syms, b, site) == Net(syms, b[..k] + b[k + 1..], site) + Contribution(syms, b[k], site)
  {
    hide Contribution;
    var n := |b| - 1;
    var rest := b[..k] + b[k + 1..];
    if k == n {
      assert rest == b[..n];
    } else {
      NetRemove(syms, b[..n], k, site);
      assert rest[..|rest| - 1] == b[..n][..k] + b[..n][k + 1..];
      assert rest[|rest| - 1] == b[n];
    }
  }

  /** Reordering the relocations of an accepted object never changes a word that
      only sums touch. */
  lemma SharedWordOrderFree(w: Width, syms: seq<Symbol>, img: Image, a: seq<Reloc>, b: seq<Reloc>, site: int)
    requires multiset(a) == multiset(b)
    requires Relocated(w, syms, img, a).Some? && Relocated(w, syms, img, b).Some?
    requires OnlySumsAt(a, site) && Readable(img, site)
    ensures var x := Relocated(w, syms, img, a).value; var y := Relocated(w, syms, img, b).value;
            Readable(x, site) && Readable(y, site) && Rd32(x, site) == Rd32(y, site)
  {
    hide Relocated, Net, Rd32, Extent, IsSum;
    forall r | r in b ensures r in a {
      assert r in multiset(b);
    }
    SharedWord(w, syms, img, a, site);
    SharedWord(w, syms, img, b, site);
    NetOrderFree(syms, a, b, site);
  }

  /** The case the assembler produces: one addition, one subtraction. */
  lemma LabelDifference(w: Width, syms: seq<Symbol>, img: Image, rels: seq<Reloc>, i: nat, j: nat)
    requires Relocated(w, syms, img, rels).Some?
    requires i < |rels| && j < |rels| && i != j && rels[i].at == rels[j].at
    requires KindOf(rels[i].rtype).Add32? && KindOf(rels[j].rtype).Sub32?
    requires forall k :: 0 <= k < |rels| && k != i && k != j ==> Disjoint(rels[i], rels[k])
    requires Readable(img, rels[i].at)
    ensures var out := Relocated(w, syms, img, rels).value;
            && SymAddr(syms, rels[i].sym).Some? && SymAddr(syms, rels[j].sym).Some?
            && Readable(out, rels[i].at)
            && Rd32(out, rels[i].at)
               == Wrap(Rd32(img, rels[i].at)
                       + (SymAddr(syms, rels[i].sym).value + rels[i].addend)
                       - (SymAddr(syms, rels[j].sym).value + rels[j].addend))
  {
    hide Rd32, Net, PlanAll, Exec, Wrap;
    var site := rels[i].at;
    SymbolKnown(w, syms, rels, i);
    SymbolKnown(w, syms, rels, j);
    assert OnlySumsAt(rels, site) by {
      forall r | r in rels
        ensures (IsSum(r) && r.at == site) || Extent(r) == 0 || r.at + Extent(r) <= site || site + 4 <= r.at
      {
        var k :| 0 <= k < |rels| && rels[k] == r;
        assert k != i && k != j ==> Disjoint(rels[i], rels[k]);
      }
    }
    forall k | 0 <= k < |rels| && k != i && k != j ensures Contribution(syms, rels[k], site) == 0 {
      assert Disjoint(rels[i], rels[k]);
    }
    SharedWord(w, syms, img, rels, site);
    NetOfTwo(syms, rels, site, i, j);
  }

  lemma {:induction false} NetOfTwo(syms: seq<Symbol>, rels: seq<Reloc>, site: int, i: nat, j: nat)
    requires i < |rels| && j < |rels| && i != j
    requires forall k :: 0 <= k < |rels| && k != i && k != j ==> Contribution(syms, rels[k], site) == 0
    ensures Net(syms, rels, site) == Contribution(syms, rels[i], site) + Contribution(syms, rels[j], site)
  {
    hide Contribution;
    NetRemove(syms, rels, i, site);
    var rest := rels[..i] + rels[i + 1..];
    var j' := if j < i then j else j - 1;
    assert rest[j'] == rels[j];
    NetRemove(syms, rest, j', site);
    var none := rest[..j'] + rest[j' + 1..];
    forall r | r in none ensures Contribution(syms, r, site) == 0 {
      var k :| 0 <= k < |none| && none[k] == r;
      var m := if k < j' then k else k + 1;
      assert r == rest[m] == rels[if m < i then m else m + 1];
    }
    NetZero(syms, none, site);
  }

  lemma {:induction false} NetZero(syms: seq<Symbol>, rels: seq<Reloc>, site: int)
    requires forall r :: r in rels ==> Contribution(syms, r, site) == 0
    ensures Net(syms, rels, site) == 0
  {
    if rels != [] {
      NetZero(syms, rels[..|rels| - 1], site);
    }
  }
}
