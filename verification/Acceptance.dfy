/** Exactly which relocation lists the script accepts, when every site lies in
    the image. */
module Acceptance {
  import opened Words
  import opened Encoders
  import opened Relocate
  import opened Sites

  /** Only NONE and RELAX are passed over. Everything else needs a supported type,
      a defined symbol, a distance the instruction can encode, and for a low half
      an auipc relocation earlier in the list at the offset its symbol names. */
  ghost predicate Acceptable(w: Width, syms: seq<Symbol>, rels: seq<Reloc>, i: nat)
    requires i < |rels|
  {
    var r := rels[i];
    var k := KindOf(r.rtype);
    k.Skipped? ||
    (&& !k.Refused?
     && SymAddr(syms, r.sym).Some?
     && (k.CondBranch? ==> InRange(PcRel(w, SymAddr(syms, r.sym).value, r), 0x1000))
     && (k.Jump? ==> InRange(PcRel(w, SymAddr(syms, r.sym).value, r), 0x10_0000))
     && (k.PcrelLoI? || k.PcrelLoS? ==> HasHigh(rels[..i], SymAddr(syms, r.sym).value)))
  }

  ghost predicate HasHigh(rels: seq<Reloc>, site: int) {
    exists r :: r in rels && KindOf(r.rtype).PcrelHi? && r.at == site
  }

  lemma {:induction false} HighSites(w: Width, syms: seq<Symbol>, rels: seq<Reloc>, site: int)
    requires PlanAll(w, syms, rels).Some?
    ensures site in PlanAll(w, syms, rels).value.hi20At <==> HasHigh(rels, site)
  {
    hide ValueOf, EditsFor;
    if rels != [] {
      var n := |rels| - 1;
      HighSites(w, syms, rels[..n], site);
      assert rels == rels[..n] + [rels[n]];
    }
  }

  lemma ValueExists(w: Width, syms: seq<Symbol>, rels: seq<Reloc>, i: nat)
    requires i < |rels| && PlanAll(w, syms, rels[..i]).Some?
    ensures ValueOf(w, syms, PlanAll(w, syms, rels[..i]).value.hi20At, rels[i]).Some? <==> Acceptable(w, syms, rels, i)
  {
    hide PcRel, Absolute, PlanAll;
    if SymAddr(syms, rels[i].sym).Some? {
      HighSites(w, syms, rels[..i], SymAddr(syms, rels[i].sym).value);
    }
  }

  lemma {:induction false} PlanExists(w: Width, syms: seq<Symbol>, rels: seq<Reloc>)
    ensures PlanAll(w, syms, rels).Some? <==> forall i :: 0 <= i < |rels| ==> Acceptable(w, syms, rels, i)
  {
    hide ValueOf, EditsFor, HiAfter, Acceptable;
    if rels != [] {
      var n := |rels| - 1;
      PlanExists(w, syms, rels[..n]);
      forall i | 0 <= i < n
        ensures Acceptable(w, syms, rels[..n], i) <==> Acceptable(w, syms, rels, i)
      {
        AcceptablePrefix(w, syms, rels, n, i);
      }
      if PlanAll(w, syms, rels[..n]).Some? {
        ValueExists(w, syms, rels, n);
      }
    }
  }

  lemma AcceptablePrefix(w: Width, syms: seq<Symbol>, rels: seq<Reloc>, n: nat, i: nat)
    requires i < n <= |rels|
    ensures Acceptable(w, syms, rels[..n], i) <==> Acceptable(w, syms, rels, i)
  {
    hide PcRel, HasHigh;
    assert rels[..n][..i] == rels[..i];
  }

  ghost predicate SitesInImage(img: Image, rels: seq<Reloc>) {
    forall r, k :: r in rels && Owns(r, k) ==> k in img
  }

  lemma {:induction false} ExecTotal(img: Image, edits: seq<Edit>)
    requires forall e :: e in edits ==> Readable(img, e.at)
    ensures Exec(img, edits).Some?
    ensures forall k :: k in img ==> k in Exec(img, edits).value
  {
    hide Rd32, NewWord;
    if edits != [] {
      var n := |edits| - 1;
      ExecTotal(img, edits[..n]);
      assert edits[n] in edits;
      var mid := Exec(img, edits[..n]).value;
      assert Readable(img, edits[n].at);
    }
  }

  lemma AcceptedExactly(w: Width, syms: seq<Symbol>, img: Image, rels: seq<Reloc>)
    requires SitesInImage(img, rels)
    ensures Relocated(w, syms, img, rels).Some?
            <==> forall i :: 0 <= i < |rels| ==> Acceptable(w, syms, rels, i)
  {
    hide Exec, PlanAll, Acceptable, Extent;
    PlanExists(w, syms, rels);
    if PlanAll(w, syms, rels).Some? {
      var edits := PlanAll(w, syms, rels).value.edits;
      forall e | e in edits ensures Readable(img, e.at) {
        PlanOwned(w, syms, rels, e);
        var r := rels[e.src];
        assert Owns(r, e.at) && Owns(r, e.at + 1) && Owns(r, e.at + 2) && Owns(r, e.at + 3);
      }
      ExecTotal(img, edits);
    }
  }
}
