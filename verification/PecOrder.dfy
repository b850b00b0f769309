/** How far the verdict depends on the order of a message's lines: only through the line that comes first. */
module PecOrder {
  import opened PecModel
  import opened PecCounts
  import opened PecVerdict

  // Case does not matter

  lemma FoldRemark(a: string, b: string)
    requires Fold(a) == Fold(b)
    ensures Remark(a) == Remark(b)
  {
    if a != [] {
      assert Fold(a)[0] == Fold(b)[0];
    }
  }

  lemma {:induction false} AddrsFold(a: seq<string>, b: seq<string>)
    requires FoldAll(a) == FoldAll(b)
    ensures FoldAll(Addrs(a)) == FoldAll(Addrs(b))
  {
    hide Fold;
    if a != [] {
      var n := |a| - 1;
      assert |FoldAll(a)| == |FoldAll(b)| == n + 1;
      assert Fold(a[n]) == FoldAll(a)[n] == FoldAll(b)[n] == Fold(b[n]);
      assert FoldAll(a[..n]) == FoldAll(a)[..n] == FoldAll(b[..n]);
      AddrsFold(a[..n], b[..n]);
      FoldRemark(a[n], b[n]);
      if !Remark(a[n]) {
        FoldAllAppend(Addrs(a[..n]), a[n]);
        FoldAllAppend(Addrs(b[..n]), b[n]);
      }
    } else {
      assert |FoldAll(b)| == 0;
    }
  }

  lemma FoldAllAt(a: seq<string>, i: nat)
    requires i < |a|
    ensures FoldAll(a)[i] == Fold(a[i])
  {
  }

  lemma FoldAllAppend(a: seq<string>, s: string)
    ensures FoldAll(a + [s]) == FoldAll(a) + [Fold(s)]
  {
  }

  lemma {:induction false} FindFold(a: seq<string>, b: seq<string>, elem: string)
    requires FoldAll(a) == FoldAll(b)
    ensures Find(a, elem) == Find(b, elem)
  {
    hide Fold;
    assert |a| == |FoldAll(a)| == |b|;
    if a != [] {
      assert Fold(a[0]) == FoldAll(a)[0] == FoldAll(b)[0] == Fold(b[0]);
      assert FoldAll(a[1..]) == FoldAll(a)[1..] == FoldAll(b[1..]);
      FindFold(a[1..], b[1..], elem);
    }
  }

  lemma {:induction false} DomainFold(a: string, b: string)
    requires Fold(a) == Fold(b)
    ensures Fold(Domain(a)) == Fold(Domain(b)) && ('@' in a <==> '@' in b)
  {
    assert |a| == |Fold(a)| == |b|;
    if a != [] {
      assert Lower(a[0]) == Fold(a)[0] == Fold(b)[0] == Lower(b[0]);
      assert a[0] == '@' <==> b[0] == '@';
      assert Fold(a[1..]) == Fold(a)[1..] == Fold(b[1..]);
      DomainFold(a[1..], b[1..]);
      assert a == [a[0]] + a[1..] && b == [b[0]] + b[1..];
    }
  }

  // Reordering

  lemma {:induction false} CoherentPermuted(a: seq<Line>, b: seq<Line>)
    requires a != [] && multiset(a) == multiset(b) && Coherent(a)
    ensures b != [] && Coherent(b)
    ensures Fold(b[0].sender) == Fold(a[0].sender) && FoldAll(b[0].recipients) == FoldAll(a[0].recipients)
  {
    hide Fold, FoldAll;
    assert a[0] in multiset(b);
    forall k | 0 <= k < |b|
      ensures Fold(b[k].sender) == Fold(a[0].sender) && FoldAll(b[k].recipients) == FoldAll(a[0].recipients)
    {
      assert b[k] in multiset(a);
    }
  }

  /** Counts do not depend on the order of the lines, for any line taken as the first. */
  lemma {:induction false} FineReordered(domains: set<string>, first: Line, a: seq<Line>, b: seq<Line>)
    requires multiset(a) == multiset(b)
    ensures Fine(domains, first, a) == Fine(domains, first, b)
  {
    hide Total, IsDomain, Share, StrayShare, RollOf;
    var w := RollOf(first);
    TotalPermuted(Envelopes(), a, b);
    TotalPermuted(Acceptances(), a, b);
    TotalPermuted(StrayShare(w, PRESA_IN_CARICO), a, b);
    TotalPermuted(StrayShare(w, RILEVAZIONE_VIRUS), a, b);
    TotalPermuted(StrayShare(w, CONSEGNA), a, b);
    forall i | 0 <= i < |w.addrs|
      ensures FineRecipient(domains, first, a, i) == FineRecipient(domains, first, b, i)
    {
      forall t ensures Count(first, a, t, i) == Count(first, b, t, i) { TotalPermuted(Share(w, t, i), a, b); }
    }
  }

  /** The verdict on a reordering depends on the line that now comes first, and on nothing else. */
  lemma {:induction false} VerdictReordered(domains: set<string>, a: seq<Line>, b: seq<Line>)
    requires a != [] && b != [] && multiset(a) == multiset(b)
    ensures Verdict(domains, b) <==> !(Coherent(a) && Fine(domains, b[0], a))
  {
    hide Verdict, Coherent, Fine;
    VerdictExact(domains, b);
    FineReordered(domains, b[0], a, b);
    if Coherent(a) { CoherentPermuted(a, b); }
    if Coherent(b) { CoherentPermuted(b, a); }
  }

  /** Any line can be moved to the front. */
  lemma {:induction false} MovedToFront(a: seq<Line>, l: Line) returns (b: seq<Line>)
    requires l in a
    ensures b != [] && multiset(b) == multiset(a) && b[0] == l
  {
    var k :| 0 <= k < |a| && a[k] == l;
    b := [l] + (a[..k] + a[k + 1..]);
    assert a == a[..k] + [l] + a[k + 1..];
  }

  ghost predicate Reordering(a: seq<Line>, b: seq<Line>) {
    b != [] && multiset(a) == multiset(b)
  }

  /** All orders of a message's lines get one verdict exactly if every line would do as the first. */
  lemma {:induction false} OneVerdictExactly(domains: set<string>, a: seq<Line>)
    requires a != []
    ensures (forall b :: Reordering(a, b) ==> Verdict(domains, b) == Verdict(domains, a)) <==>
            (Coherent(a) ==> forall l :: l in a ==> (Fine(domains, l, a) <==> Fine(domains, a[0], a)))
  {
    hide Verdict, Coherent, Fine;
    VerdictReordered(domains, a, a);
    forall b | Reordering(a, b)
      ensures b[0] in a && (Verdict(domains, b) <==> !(Coherent(a) && Fine(domains, b[0], a)))
    {
      assert b[0] in multiset(a);
      VerdictReordered(domains, a, b);
    }
    if forall b :: Reordering(a, b) ==> Verdict(domains, b) == Verdict(domains, a) {
      forall l | l in a && Coherent(a)
        ensures Fine(domains, l, a) <==> Fine(domains, a[0], a)
      {
        var b := MovedToFront(a, l);
        assert Reordering(a, b);
      }
    }
  }

  // Why the certified marks have to agree

  const MARKED := Line("id", "a@x", ["b@x", "(certificato)"], PostaCertificata, [], [], false)
  const SHOUTED := MARKED.(kind := Accettazione, recipients := ["b@x", "(CERTIFICATO)"])

  /** The mark is compared with case, the recipients without: which line comes first decides. */
  lemma MarksOutOfCase()
    ensures Verdict({"x"}, [MARKED, SHOUTED]) && !Verdict({"x"}, [SHOUTED, MARKED])
  {
    hide Verdict, IsDomain, FoldAll, Hits, Strays, Total, RollOf;
    SenderInDomain();
    var a, b := [MARKED, SHOUTED], [SHOUTED, MARKED];
    assert FoldAll(MARKED.recipients) == FoldAll(SHOUTED.recipients) by { ShoutedFold(); }
    MarkedRolls();
    VerdictExact({"x"}, a);
    VerdictExact({"x"}, b);
    TotalOfTwo(Envelopes(), MARKED, SHOUTED);
    TotalOfTwo(Envelopes(), SHOUTED, MARKED);
    TotalOfTwo(Acceptances(), SHOUTED, MARKED);
    var w, v := RollOf(MARKED), RollOf(SHOUTED);
    forall t, i | 0 <= i < 1 ensures Total(Share(w, t, i), a) == 0 && Total(Share(v, t, i), b) == 0 {
      TotalOfTwo(Share(w, t, i), MARKED, SHOUTED);
      TotalOfTwo(Share(v, t, i), SHOUTED, MARKED);
    }
    forall f ensures Total(StrayShare(v, f), b) == 0 {
      NoStrays(v);
      TotalOfTwo(StrayShare(v, f), SHOUTED, MARKED);
    }
    assert !FineRecipient({"x"}, MARKED, a, 0);
    assert FineRecipient({"x"}, SHOUTED, b, 0);
  }

  lemma TotalOfTwo(f: Line -> nat, k: Line, l: Line)
    ensures Total(f, [k, l]) == f(k) + f(l)
  {
    TotalOfOne(f, k);
    assert [k, l][..1] == [k];
  }

  lemma ShoutedFold()
    ensures FoldAll(MARKED.recipients) == FoldAll(SHOUTED.recipients)
  {
    assert Fold("(certificato)") == "(certificato)" == Fold("(CERTIFICATO)");
  }

  lemma MarkedRolls()
    ensures RollOf(MARKED) == Roll(["b@x"], [true]) && RollOf(SHOUTED) == Roll(["b@x"], [false])
  {
    var m, s := MARKED.recipients, SHOUTED.recipients;
    assert m[..1] == ["b@x"] == s[..1] && ["b@x"][..0] == [];
    assert Addrs(["b@x"]) == ["b@x"] && Certs(["b@x"]) == [false];
    assert "(certificato"[1] != "(CERTIFICATO)"[1];
    assert Certified("(certificato)") && !Certified("(CERTIFICATO)");
  }
}
