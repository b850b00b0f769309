/** When the order of a message's lines matters: the certified marks of the recipients. */
module PecMarks {
  import opened PecModel
  import opened PecCounts
  import opened PecVerdict
  import opened PecOrder

  // Recipients that receipts name

  ghost predicate NamedBy(addrs: seq<string>, tokens: seq<string>, i: nat) {
    exists t :: t in tokens && !Remark(t) && Find(addrs, t) == i
  }

  /** A receipt names recipient i. */
  ghost predicate NamedIn(addrs: seq<string>, ls: seq<Line>, i: nat) {
    exists l :: l in ls && NamedBy(addrs, Named(l), i)
  }

  lemma {:induction false} HitsName(w: Roll, tokens: seq<string>, i: nat)
    requires Balanced(w) && i < |w.addrs| && Hits(w, tokens, i) > 0
    ensures NamedBy(w.addrs, tokens, i)
  {
    hide Find;
    var n := |tokens| - 1;
    assert tokens[n] in tokens;
    if Hits(w, tokens[..n], i) > 0 {
      HitsName(w, tokens[..n], i);
    }
  }

  /** A receipt that names an uncertified recipient is a stray. */
  lemma {:induction false} NamesStray(w: Roll, tokens: seq<string>, i: nat)
    requires Balanced(w) && i < |w.addrs| && !w.certs[i] && NamedBy(w.addrs, tokens, i)
    ensures Strays(w, tokens) > 0
  {
    hide Find;
    var n := |tokens| - 1;
    assert tokens == tokens[..n] + [tokens[n]];
    if NamedBy(w.addrs, tokens[..n], i) {
      NamesStray(w, tokens[..n], i);
    }
  }

  /** Receipts of a recipient that a line leaves uncertified are strays for it. */
  lemma {:induction false} NamedStray(first: Line, ls: seq<Line>, i: nat)
    requires i < |RollOf(first).addrs| && !RollOf(first).certs[i] && NamedIn(RollOf(first).addrs, ls, i)
    ensures StrayCount(first, ls) > 0
  {
    hide Total, Strays, RollOf, NamedBy;
    var w := RollOf(first);
    var l :| l in ls && NamedBy(w.addrs, Named(l), i);
    NamesStray(w, Named(l), i);
    assert Named(l) != [] by { NamedSome(w.addrs, Named(l), i); }
    TotalHas(StrayShare(w, StrayFlag(l.kind)), ls, l);
  }

  lemma NamedSome(addrs: seq<string>, tokens: seq<string>, i: nat)
    requires NamedBy(addrs, tokens, i)
    ensures tokens != []
  {
  }

  /** Counted receipts name their recipient. */
  lemma {:induction false} CountedNamed(first: Line, ls: seq<Line>, t: Tally, i: nat)
    requires i < |RollOf(first).addrs| && Count(first, ls, t, i) > 0
    ensures NamedIn(RollOf(first).addrs, ls, i)
  {
    hide Total, Hits, RollOf;
    var w := RollOf(first);
    var l := TotalFrom(Share(w, t, i), ls);
    HitsName(w, Named(l), i);
  }

  // Two lists of recipients that differ in case and marks

  ghost predicate Alike(w: Roll, v: Roll) {
    Balanced(w) && Balanced(v) && |w.addrs| == |v.addrs| && FoldAll(w.addrs) == FoldAll(v.addrs)
  }

  ghost predicate AgreeOn(w: Roll, v: Roll, tokens: seq<string>)
    requires Alike(w, v)
  {
    forall i :: 0 <= i < |w.addrs| && NamedBy(w.addrs, tokens, i) ==> w.certs[i] == v.certs[i]
  }

  lemma {:induction false} CountsAlike(w: Roll, v: Roll, tokens: seq<string>, i: nat)
    requires Alike(w, v) && AgreeOn(w, v, tokens)
    ensures Strays(w, tokens) == Strays(v, tokens)
    ensures i < |w.addrs| ==> Hits(w, tokens, i) == Hits(v, tokens, i)
  {
    hide FoldAll, Find;
    if tokens != [] {
      var n := |tokens| - 1;
      var t := tokens[n];
      assert t in tokens;
      assert forall x :: x in tokens[..n] ==> x in tokens;
      CountsAlike(w, v, tokens[..n], i);
      FindFold(w.addrs, v.addrs, t);
      var k := Find(w.addrs, t);
      assert !Remark(t) && k < |w.addrs| ==> NamedBy(w.addrs, tokens, k);
    }
  }

  lemma {:induction false} NamedAlike(w: Roll, v: Roll, ls: seq<Line>, i: nat)
    requires Alike(w, v)
    ensures NamedIn(w.addrs, ls, i) <==> NamedIn(v.addrs, ls, i)
  {
    hide FoldAll, Find;
    forall t ensures Find(w.addrs, t) == Find(v.addrs, t) { FindFold(w.addrs, v.addrs, t); }
    forall tokens ensures NamedBy(w.addrs, tokens, i) <==> NamedBy(v.addrs, tokens, i) {}
  }

  // Marks that matter

  /** The message owes recipient i receipts, or a receipt names it. */
  ghost predicate Matters(domains: set<string>, first: Line, ls: seq<Line>, i: nat)
    requires i < |RollOf(first).addrs|
  {
    IsDomain(domains, first.sender) || IsDomain(domains, RollOf(first).addrs[i]) || NamedIn(RollOf(first).addrs, ls, i)
  }

  /** Two lines mark the same recipients as certified, as far as it matters. */
  ghost predicate SameMarks(domains: set<string>, k: Line, l: Line, ls: seq<Line>) {
    var w, v := RollOf(k), RollOf(l);
    forall i :: 0 <= i < |w.addrs| && i < |v.addrs| && Matters(domains, k, ls, i) ==> w.certs[i] == v.certs[i]
  }

  /** The two lines have the same sender and recipients, ignoring case. */
  ghost predicate SameHead(k: Line, l: Line) {
    Fold(k.sender) == Fold(l.sender) && FoldAll(k.recipients) == FoldAll(l.recipients)
  }

  lemma {:induction false} HeadsAlike(domains: set<string>, k: Line, l: Line)
    requires SameHead(k, l)
    ensures Alike(RollOf(k), RollOf(l)) && IsDomain(domains, k.sender) == IsDomain(domains, l.sender)
    ensures forall i :: 0 <= i < |RollOf(k).addrs| ==>
            IsDomain(domains, RollOf(k).addrs[i]) == IsDomain(domains, RollOf(l).addrs[i])
  {
    hide Fold, FoldAll, Addrs, Certs, Domain;
    var w, v := RollOf(k), RollOf(l);
    AddrsFold(k.recipients, l.recipients);
    assert |w.addrs| == |FoldAll(w.addrs)| == |v.addrs|;
    DomainFold(k.sender, l.sender);
    forall i | 0 <= i < |w.addrs| ensures IsDomain(domains, w.addrs[i]) == IsDomain(domains, v.addrs[i]) {
      FoldAllAt(w.addrs, i);
      FoldAllAt(v.addrs, i);
      DomainFold(w.addrs[i], v.addrs[i]);
    }
  }

  /** Lines with the same marks, as far as it matters, count alike. */
  lemma {:induction false} SameMarksSameCounts(domains: set<string>, k: Line, l: Line, ls: seq<Line>)
    requires SameHead(k, l) && SameMarks(domains, k, l, ls)
    ensures |RollOf(k).addrs| == |RollOf(l).addrs| && StrayCount(k, ls) == StrayCount(l, ls)
    ensures forall t, i :: 0 <= i < |RollOf(k).addrs| ==> Count(k, ls, t, i) == Count(l, ls, t, i)
  {
    hide Total, Strays, Hits, FoldAll, Fold, RollOf, NamedBy, IsDomain;
    HeadsAlike(domains, k, l);
    var w, v := RollOf(k), RollOf(l);
    forall m | m in ls
      ensures AgreeOn(w, v, Named(m)) && Strays(w, Named(m)) == Strays(v, Named(m))
    {
      assert AgreeOn(w, v, Named(m));
      CountsAlike(w, v, Named(m), 0);
    }
    TotalSame(StrayShare(w, PRESA_IN_CARICO), StrayShare(v, PRESA_IN_CARICO), ls);
    TotalSame(StrayShare(w, RILEVAZIONE_VIRUS), StrayShare(v, RILEVAZIONE_VIRUS), ls);
    TotalSame(StrayShare(w, CONSEGNA), StrayShare(v, CONSEGNA), ls);
    forall t, i | 0 <= i < |w.addrs|
      ensures Count(k, ls, t, i) == Count(l, ls, t, i)
    {
      forall m | m in ls ensures Hits(w, Named(m), i) == Hits(v, Named(m), i) { CountsAlike(w, v, Named(m), i); }
      TotalSame(Share(w, t, i), Share(v, t, i), ls);
    }
  }

  /** An unowed recipient that no receipt names has no counts. */
  lemma {:induction false} NotNamedNotCounted(first: Line, ls: seq<Line>, i: nat)
    requires i < |RollOf(first).addrs| && !NamedIn(RollOf(first).addrs, ls, i)
    ensures forall t :: Count(first, ls, t, i) == 0
  {
    hide RollOf, Count;
    forall t ensures Count(first, ls, t, i) == 0 {
      if Count(first, ls, t, i) > 0 { CountedNamed(first, ls, t, i); }
    }
  }

  lemma {:induction false} SameMarksFine(domains: set<string>, k: Line, l: Line, ls: seq<Line>)
    requires SameHead(k, l) && SameMarks(domains, k, l, ls) && Fine(domains, k, ls)
    ensures Fine(domains, l, ls)
  {
    hide Total, Count, RollOf, IsDomain, StrayCount, Fold, FoldAll, NamedIn, Signed;
    HeadsAlike(domains, k, l);
    SameMarksSameCounts(domains, k, l, ls);
    var w, v := RollOf(k), RollOf(l);
    forall i | 0 <= i < |v.addrs|
      ensures FineRecipient(domains, l, ls, i)
    {
      assert FineRecipient(domains, k, ls, i);
      if w.certs[i] != v.certs[i] {
        NotNamedNotCounted(k, ls, i);
      }
    }
  }

  /** Marks that differ where it matters: at most one of the two lines can be the first of a normal message. */
  lemma {:induction false} OtherMarksNotFine(domains: set<string>, k: Line, l: Line, ls: seq<Line>, i: nat)
    requires SameHead(k, l) && i < |RollOf(k).addrs| == |RollOf(l).addrs| && Matters(domains, k, ls, i)
    requires RollOf(k).certs[i] && !RollOf(l).certs[i]
    ensures !Fine(domains, k, ls) || !Fine(domains, l, ls)
  {
    hide Total, Count, RollOf, IsDomain, Fold, FoldAll, NamedIn, Signed, StrayCount;
    HeadsAlike(domains, k, l);
    NamedAlike(RollOf(k), RollOf(l), ls, i);
    if Fine(domains, k, ls) {
      assert FineRecipient(domains, k, ls, i);
      if Count(k, ls, Presa, i) > 0 {
        CountedNamed(k, ls, Presa, i);
      }
      NamedStray(l, ls, i);
    }
  }

  /** For lines with the same head of which one is fine: the other is fine exactly if their marks agree where it
      matters. */
  lemma {:induction false} FineByMarks(domains: set<string>, k: Line, l: Line, ls: seq<Line>)
    requires SameHead(k, l) && Fine(domains, k, ls)
    ensures Fine(domains, l, ls) <==> SameMarks(domains, k, l, ls)
  {
    hide Fine, Matters, RollOf, Fold, FoldAll, IsDomain;
    HeadsAlike(domains, k, l);
    var w, v := RollOf(k), RollOf(l);
    if SameMarks(domains, k, l, ls) {
      SameMarksFine(domains, k, l, ls);
    } else {
      var i :| 0 <= i < |w.addrs| && i < |v.addrs| && Matters(domains, k, ls, i) && w.certs[i] != v.certs[i];
      MattersAlike(domains, k, l, ls, i);
      if w.certs[i] {
        OtherMarksNotFine(domains, k, l, ls, i);
      } else {
        OtherMarksNotFine(domains, l, k, ls, i);
      }
    }
  }

  lemma {:induction false} MattersAlike(domains: set<string>, k: Line, l: Line, ls: seq<Line>, i: nat)
    requires SameHead(k, l) && i < |RollOf(k).addrs| == |RollOf(l).addrs|
    ensures Matters(domains, k, ls, i) == Matters(domains, l, ls, i)
  {
    hide RollOf, Fold, FoldAll, IsDomain, NamedIn;
    HeadsAlike(domains, k, l);
    NamedAlike(RollOf(k), RollOf(l), ls, i);
  }

  /** All lines mark the same recipients as certified, as far as it matters. */
  ghost predicate MarksMatch(domains: set<string>, ls: seq<Line>) {
    forall k, l :: k in ls && l in ls ==> SameMarks(domains, k, l, ls)
  }

  /** Some order of the lines is a normal message. */
  ghost predicate SomeNormal(domains: set<string>, ls: seq<Line>) {
    Coherent(ls) && exists l :: l in ls && Fine(domains, l, ls)
  }

  ghost predicate OneVerdict(domains: set<string>, ls: seq<Line>)
    requires ls != []
  {
    forall b :: Reordering(ls, b) ==> Verdict(domains, b) == Verdict(domains, ls)
  }

  lemma {:induction false} SameHeads(ls: seq<Line>, k: Line, l: Line)
    requires Coherent(ls) && k in ls && l in ls
    ensures SameHead(k, l)
  {
    hide Fold, FoldAll;
  }

  /** All orders of a message's lines get the same verdict exactly if the marks of all lines agree where it matters,
      or no order is normal. */
  lemma {:induction false} OneVerdictByMarks(domains: set<string>, ls: seq<Line>)
    requires ls != []
    ensures OneVerdict(domains, ls) <==> (SomeNormal(domains, ls) ==> MarksMatch(domains, ls))
  {
    hide Verdict, Fine, Coherent, SameMarks, Reordering, SameHead;
    OneVerdictExactly(domains, ls);
    assert ls[0] in ls;
    if Coherent(ls) {
      forall k, l | k in ls && l in ls && Fine(domains, k, ls)
        ensures Fine(domains, l, ls) <==> SameMarks(domains, k, l, ls)
      {
        SameHeads(ls, k, l);
        FineByMarks(domains, k, l, ls);
      }
    }
  }

  /** In particular, if lines that differ only in case mark the same recipients. */
  lemma {:induction false} VerdictPermuted(domains: set<string>, a: seq<Line>, b: seq<Line>)
    requires a != [] && Reordering(a, b)
    requires forall k, l :: k in a && l in a && SameHead(k, l) ==> Certs(k.recipients) == Certs(l.recipients)
    ensures Verdict(domains, a) == Verdict(domains, b)
  {
    hide Verdict, Fine, Coherent, Matters, SameHead;
    OneVerdictByMarks(domains, a);
    if SomeNormal(domains, a) {
      forall k, l | k in a && l in a ensures SameMarks(domains, k, l, a) { SameHeads(a, k, l); }
    }
  }
}
