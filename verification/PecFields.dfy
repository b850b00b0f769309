/** The receipts of a message in terms of the fields of its log lines, and the written rules on them
    (PEC_report_anomalie.h). */
module PecFields {
  import opened PecModel
  import opened PecCounts
  import opened PecVerdict

  /** The address names recipient i: the first one that differs from it at most in case. Remarks name nobody. */
  predicate Names(addrs: seq<string>, t: string, i: nat)
    requires i < |addrs|
  {
    && !(t != [] && t[0] == '(')
    && Fold(addrs[i]) == Fold(t) && forall j :: 0 <= j < i ==> Fold(addrs[j]) != Fold(t)
  }

  /** How often a field names recipient i. */
  function Mentions(addrs: seq<string>, field: seq<string>, i: nat): nat
    requires i < |addrs|
  {
    if field == [] then 0 else
    Mentions(addrs, field[..|field| - 1], i) + if Names(addrs, field[|field| - 1], i) then 1 else 0
  }

  function OfKind(k: Kind): Line -> nat { (l: Line) => if l.kind == k then 1 else 0 }

  /** Take-overs name recipients in `ricezione`. */
  function TakeOvers(addrs: seq<string>, i: nat): Line -> nat
    requires i < |addrs|
  {
    (l: Line) => if l.kind == PresaInCarico then Mentions(addrs, l.ricezione, i) else 0
  }

  /** Failures and deliveries name them in `consegna`. */
  function Failures(addrs: seq<string>, i: nat): Line -> nat
    requires i < |addrs|
  {
    (l: Line) => if l.kind == ErroreConsegna then Mentions(addrs, l.consegna, i) else 0
  }

  function VirusFailures(addrs: seq<string>, i: nat): Line -> nat
    requires i < |addrs|
  {
    (l: Line) => if l.kind == ErroreConsegna && l.virusError then Mentions(addrs, l.consegna, i) else 0
  }

  function Successes(addrs: seq<string>, i: nat): Line -> nat
    requires i < |addrs|
  {
    (l: Line) => if l.kind == AvvenutaConsegna then Mentions(addrs, l.consegna, i) else 0
  }

  /** Virus detections name them in `consegna` from version 2.1 on, in `ricezione` before. */
  function Viruses(addrs: seq<string>, i: nat): Line -> nat
    requires i < |addrs|
  {
    (l: Line) =>
      if l.kind == RilevazioneVirus then Mentions(addrs, if l.consegna == [] then l.ricezione else l.consegna, i) else 0
  }

  /** The receipts of one recipient. */
  datatype Sums = Sums(takeOvers: nat, failures: nat, virusFailures: nat, successes: nat, viruses: nat)

  ghost function SumsOf(addrs: seq<string>, ls: seq<Line>, i: nat): Sums
    requires i < |addrs|
  {
    Sums(Total(TakeOvers(addrs, i), ls), Total(Failures(addrs, i), ls), Total(VirusFailures(addrs, i), ls),
         Total(Successes(addrs, i), ls), Total(Viruses(addrs, i), ls))
  }

  /** Some address in the field names no certified recipient. */
  ghost predicate HasStray(w: Roll, field: seq<string>)
    requires Balanced(w)
  {
    exists t :: t in field && IsStray(w, t)
  }

  predicate IsStray(w: Roll, t: string)
    requires Balanced(w)
  {
    !(t != [] && t[0] == '(') && forall i :: 0 <= i < |w.addrs| && w.certs[i] ==> !Names(w.addrs, t, i)
  }

  ghost predicate StrayTakeOver(w: Roll, ls: seq<Line>)
    requires Balanced(w)
  {
    exists l :: l in ls && l.kind == PresaInCarico && HasStray(w, l.ricezione)
  }

  ghost predicate StrayVirus(w: Roll, ls: seq<Line>)
    requires Balanced(w)
  {
    exists l :: l in ls && l.kind == RilevazioneVirus &&
                HasStray(w, if l.consegna == [] then l.ricezione else l.consegna)
  }

  ghost predicate StrayDelivery(w: Roll, ls: seq<Line>)
    requires Balanced(w)
  {
    exists l :: l in ls && (l.kind == ErroreConsegna || l.kind == AvvenutaConsegna) && HasStray(w, l.consegna)
  }

  // The fields behind the tallies

  lemma {:induction false} NamesIsFind(addrs: seq<string>, t: string, i: nat)
    requires i < |addrs|
    ensures Names(addrs, t, i) <==> !Remark(t) && Find(addrs, t) == i
  {
    hide Fold;
    FindFirst(addrs, t);
  }

  lemma {:induction false} HitsAreMentions(w: Roll, field: seq<string>, i: nat)
    requires Balanced(w) && i < |w.addrs|
    ensures Hits(w, field, i) == if w.certs[i] then Mentions(w.addrs, field, i) else 0
  {
    hide Names, Find, Remark;
    if field != [] {
      HitsAreMentions(w, field[..|field| - 1], i);
      NamesIsFind(w.addrs, field[|field| - 1], i);
    }
  }

  lemma {:induction false} StrayToken(w: Roll, t: string)
    requires Balanced(w)
    ensures var k := Find(w.addrs, t);
            IsStray(w, t) <==> !Remark(t) && (k == |w.addrs| || !w.certs[k])
  {
    hide Names, Find;
    forall i | 0 <= i < |w.addrs| ensures Names(w.addrs, t, i) <==> !Remark(t) && Find(w.addrs, t) == i {
      NamesIsFind(w.addrs, t, i);
    }
    var k := Find(w.addrs, t);
    assert k < |w.addrs| && !Remark(t) ==> Names(w.addrs, t, k);
  }

  lemma {:induction false} StraysAreStray(w: Roll, field: seq<string>)
    requires Balanced(w)
    ensures Strays(w, field) > 0 <==> HasStray(w, field)
  {
    hide IsStray, Find;
    if field != [] {
      var n := |field| - 1;
      assert field == field[..n] + [field[n]];
      StraysAreStray(w, field[..n]);
      StrayToken(w, field[n]);
    }
  }

  /** The tallies of a certified recipient are the sums over its mentions in the fields; others have none. */
  lemma {:induction false} TalliesAreSums(first: Line, ls: seq<Line>, i: nat)
    requires i < |RollOf(first).addrs|
    ensures var s := if RollOf(first).certs[i] then SumsOf(RollOf(first).addrs, ls, i) else Sums(0, 0, 0, 0, 0);
            && Count(first, ls, Presa, i) == s.takeOvers && Count(first, ls, Mancata, i) == s.failures
            && Count(first, ls, Avvenuta, i) == s.successes && Count(first, ls, Virus, i) == s.viruses
            && Count(first, ls, MancataVirus, i) == s.virusFailures
  {
    hide Total, Mentions, Hits, RollOf;
    var w := RollOf(first);
    if w.certs[i] {
      forall field ensures Hits(w, field, i) == Mentions(w.addrs, field, i) { HitsAreMentions(w, field, i); }
      TotalSame(Share(w, Presa, i), TakeOvers(w.addrs, i), ls);
      TotalSame(Share(w, Mancata, i), Failures(w.addrs, i), ls);
      TotalSame(Share(w, MancataVirus, i), VirusFailures(w.addrs, i), ls);
      TotalSame(Share(w, Avvenuta, i), Successes(w.addrs, i), ls);
      TotalSame(Share(w, Virus, i), Viruses(w.addrs, i), ls);
    } else {
      forall t ensures Count(first, ls, t, i) == 0 { UncertifiedNeverCounted(w, t, i, ls); }
    }
  }

  /** The lines behind the stray flags. */
  lemma {:induction false} StrayTotals(w: Roll, ls: seq<Line>)
    requires Balanced(w)
    ensures Total(StrayShare(w, PRESA_IN_CARICO), ls) > 0 <==> StrayTakeOver(w, ls)
    ensures Total(StrayShare(w, RILEVAZIONE_VIRUS), ls) > 0 <==> StrayVirus(w, ls)
    ensures Total(StrayShare(w, CONSEGNA), ls) > 0 <==> StrayDelivery(w, ls)
  {
    hide Strays, HasStray;
    assert Strays(w, []) == 0 by { NoStrays(w); }
    forall field ensures Strays(w, field) > 0 <==> HasStray(w, field) { StraysAreStray(w, field); }
    forall f
      ensures Total(StrayShare(w, f), ls) > 0 <==> exists l :: l in ls && StrayShare(w, f)(l) > 0
    {
      TotalSome(StrayShare(w, f), ls);
    }
    hide Total;
    forall l
      ensures StrayShare(w, PRESA_IN_CARICO)(l) > 0 <==> l.kind == PresaInCarico && HasStray(w, l.ricezione)
      ensures StrayShare(w, RILEVAZIONE_VIRUS)(l) > 0 <==>
              l.kind == RilevazioneVirus && HasStray(w, if l.consegna == [] then l.ricezione else l.consegna)
      ensures StrayShare(w, CONSEGNA)(l) > 0 <==>
              (l.kind == ErroreConsegna || l.kind == AvvenutaConsegna) && HasStray(w, l.consegna)
    {
    }
  }

  lemma {:induction false} TotalSome(f: Line -> nat, ls: seq<Line>)
    ensures Total(f, ls) > 0 <==> exists l :: l in ls && f(l) > 0
  {
    if Total(f, ls) > 0 {
      var l := TotalFrom(f, ls);
    }
    if exists l :: l in ls && f(l) > 0 {
      var l :| l in ls && f(l) > 0;
      TotalHas(f, ls, l);
    }
  }

  lemma {:induction false} KindTotals(ls: seq<Line>)
    ensures Total(Envelopes(), ls) == Total(OfKind(PostaCertificata), ls)
    ensures Total(Acceptances(), ls) == Total(OfKind(Accettazione), ls)
  {
    TotalSame(Envelopes(), OfKind(PostaCertificata), ls);
    TotalSame(Acceptances(), OfKind(Accettazione), ls);
  }

  // The written rules

  /** Receipts name certified recipients only (rules 4A, 4B and 5). */
  ghost predicate NoStray(w: Roll, ls: seq<Line>)
    requires Balanced(w)
  {
    !StrayTakeOver(w, ls) && !StrayVirus(w, ls) && !StrayDelivery(w, ls)
  }

  /** Rules B for a sent message. */
  ghost predicate SentByTheRules(first: Line, ls: seq<Line>) {
    var w := RollOf(first);
    && Total(OfKind(PostaCertificata), ls) == 1
    && Total(OfKind(Accettazione), ls) == 1
    && NoStray(w, ls)
    && forall i :: 0 <= i < |w.addrs| && w.certs[i] ==> SentRecipient(SumsOf(w.addrs, ls, i))
  }

  /** Rules 3, 6, 3A and 3B. */
  predicate SentRecipient(s: Sums) {
    s.takeOvers == 1 && s.failures + s.successes == 1 && s.viruses == s.virusFailures
  }

  /** Rules C for a received message: receipts are owed to the recipients of the given domains only. */
  ghost predicate ReceivedByTheRules(domains: set<string>, first: Line, ls: seq<Line>) {
    var w := RollOf(first);
    && Total(OfKind(PostaCertificata), ls) == 1
    && Total(OfKind(Accettazione), ls) == 0
    && NoStray(w, ls)
    && forall i :: 0 <= i < |w.addrs| && w.certs[i] ==>
         ReceivedRecipient(SumsOf(w.addrs, ls, i), if IsDomain(domains, w.addrs[i]) then 1 else 0)
  }

  predicate ReceivedRecipient(s: Sums, owed: nat) {
    s.takeOvers == owed && s.failures + s.successes + s.viruses == owed
  }

  /** Fewer than eighty of each sort. */
  ghost predicate Few(first: Line, ls: seq<Line>) {
    var w := RollOf(first);
    && Total(OfKind(PostaCertificata), ls) < 80 && Total(OfKind(Accettazione), ls) < 80
    && forall i :: 0 <= i < |w.addrs| && w.certs[i] ==> FewSums(SumsOf(w.addrs, ls, i))
  }

  predicate FewSums(s: Sums) {
    s.takeOvers < 80 && s.failures < 80 && s.virusFailures < 80 && s.successes < 80 && s.viruses < 80
  }

  /** A sent message that follows the written rules goes unreported; below eighty of each sort, no other does. */
  lemma {:induction false} SentNormal(domains: set<string>, ls: seq<Line>)
    requires ls != [] && Coherent(ls) && IsDomain(domains, ls[0].sender)
    ensures SentByTheRules(ls[0], ls) ==> !Verdict(domains, ls)
    ensures Few(ls[0], ls) ==> (!Verdict(domains, ls) <==> SentByTheRules(ls[0], ls))
  {
    hide Verdict, IsDomain, Total, Count, RollOf, Coherent, SumsOf, StrayTakeOver, StrayVirus, StrayDelivery;
    VerdictExact(domains, ls);
    var first, w := ls[0], RollOf(ls[0]);
    KindTotals(ls);
    StrayTotals(w, ls);
    forall i | 0 <= i < |w.addrs|
      ensures var s := SumsOf(w.addrs, ls, i);
              if w.certs[i]
              then
                && (SentRecipient(s) ==> FineRecipient(domains, first, ls, i))
                && (FewSums(s) && FineRecipient(domains, first, ls, i) ==> SentRecipient(s))
              else FineRecipient(domains, first, ls, i)
    {
      TalliesAreSums(first, ls, i);
    }
  }

  /** The same for a received message. */
  lemma {:induction false} ReceivedNormal(domains: set<string>, ls: seq<Line>)
    requires ls != [] && Coherent(ls) && !IsDomain(domains, ls[0].sender)
    ensures ReceivedByTheRules(domains, ls[0], ls) ==> !Verdict(domains, ls)
    ensures Few(ls[0], ls) ==> (!Verdict(domains, ls) <==> ReceivedByTheRules(domains, ls[0], ls))
  {
    hide Verdict, IsDomain, Total, Count, RollOf, Coherent, SumsOf, StrayTakeOver, StrayVirus, StrayDelivery;
    VerdictExact(domains, ls);
    var first, w := ls[0], RollOf(ls[0]);
    KindTotals(ls);
    StrayTotals(w, ls);
    forall i | 0 <= i < |w.addrs|
      ensures var s, owed := SumsOf(w.addrs, ls, i), if IsDomain(domains, w.addrs[i]) then 1 else 0;
              if w.certs[i]
              then
                && (ReceivedRecipient(s, owed) ==> FineRecipient(domains, first, ls, i))
                && (FewSums(s) && FineRecipient(domains, first, ls, i) ==> ReceivedRecipient(s, owed))
              else FineRecipient(domains, first, ls, i)
    {
      TalliesAreSums(first, ls, i);
    }
  }

  // The bound is needed

  const ENVELOPE := Line("id", "a@x", [], PostaCertificata, [], [], false)
  const ACCEPTANCE := ENVELOPE.(kind := Accettazione)

  /** 257 envelopes and one acceptance: a wrapped counter makes the message look normal. */
  lemma WrappedEnvelopes()
    ensures var ls := seq(257, _ => ENVELOPE) + [ACCEPTANCE];
            !Verdict({"x"}, ls) && Total(OfKind(PostaCertificata), ls) == 257 && !SentByTheRules(ls[0], ls)
  {
    hide Verdict, IsDomain;
    var many := seq(257, _ => ENVELOPE);
    var ls := many + [ACCEPTANCE];
    assert forall k :: 0 <= k < |ls| ==> ls[k].recipients == [] && ls[k].sender == "a@x";
    VerdictExact({"x"}, ls);
    KindTotals(ls);
    SenderInDomain();
    TotalSplit(Envelopes(), many, [ACCEPTANCE]);
    TotalSplit(Acceptances(), many, [ACCEPTANCE]);
    TotalOfOne(Envelopes(), ACCEPTANCE);
    TotalOfOne(Acceptances(), ACCEPTANCE);
    TotalOfMany(Envelopes(), ENVELOPE, 257);
    TotalOfMany(Acceptances(), ENVELOPE, 257);
    var w := RollOf(ls[0]);
    forall f ensures Total(StrayShare(w, f), ls) == 0 {
      TotalSplit(StrayShare(w, f), many, [ACCEPTANCE]);
      TotalOfOne(StrayShare(w, f), ACCEPTANCE);
      TotalOfMany(StrayShare(w, f), ENVELOPE, 257);
    }
  }
}
