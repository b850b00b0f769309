/** What the verdict on a message means for its log lines. */
module PecVerdict {
  import opened PecModel
  import opened PecCounts

  /** A counter's distance from '0' as the C code computes it. */
  function Signed(n: nat): (k: int)
    ensures n < 80 ==> k == n
  {
    CharOf(n) - 48
  }

  /** How often a tally of recipient i was moved. */
  ghost function Count(first: Line, ls: seq<Line>, t: Tally, i: nat): nat
    requires i < |RollOf(first).addrs|
  {
    Total(Share(RollOf(first), t, i), ls)
  }

  ghost function StrayCount(first: Line, ls: seq<Line>): nat {
    var w := RollOf(first);
    Total(StrayShare(w, PRESA_IN_CARICO), ls) + Total(StrayShare(w, RILEVAZIONE_VIRUS), ls) +
      Total(StrayShare(w, CONSEGNA), ls)
  }

  /** Recipient i got what a message of this direction owes it; counts are taken modulo 256. */
  ghost predicate FineRecipient(domains: set<string>, first: Line, ls: seq<Line>, i: nat)
    requires i < |RollOf(first).addrs|
  {
    var presa, avvenuta := Count(first, ls, Presa, i), Count(first, ls, Avvenuta, i);
    var mancata := Count(first, ls, Mancata, i);
    var virus, mancataVirus := Count(first, ls, Virus, i), Count(first, ls, MancataVirus, i);
    var sent := IsDomain(domains, first.sender);
    && (sent ==> virus % 256 == mancataVirus % 256)
    && (RollOf(first).certs[i] ==>
          if sent then presa % 256 == 1 && Signed(mancata) + Signed(avvenuta) == 1
          else if IsDomain(domains, RollOf(first).addrs[i])
          then presa % 256 == 1 && Signed(mancata) + Signed(avvenuta) + Signed(virus) == 1
          else presa % 256 == 0 && mancata % 256 == 0 && avvenuta % 256 == 0 && virus % 256 == 0)
  }

  /** The lines of a message that goes unreported. */
  ghost predicate Fine(domains: set<string>, first: Line, ls: seq<Line>) {
    && Total(Envelopes(), ls) % 256 == 1
    && Total(Acceptances(), ls) % 256 == (if IsDomain(domains, first.sender) then 1 else 0)
    && StrayCount(first, ls) == 0
    && forall i :: 0 <= i < |RollOf(first).addrs| ==> FineRecipient(domains, first, ls, i)
  }

  /** The verdict, exactly, for every list of lines. */
  lemma {:induction false} VerdictExact(domains: set<string>, ls: seq<Line>)
    requires ls != []
    ensures Verdict(domains, ls) <==> !(Coherent(ls) && Fine(domains, ls[0], ls))
  {
    hide Run, Coherent, Fine, Anomalous, IsDomain;
    if Coherent(ls) {
      RunSummed(domains, ls);
      SummedVerdict(domains, ls[0], ls, Run(domains, ls));
    } else {
      RunIncoherent(domains, ls);
      ChangedIsAnomalous(domains, Run(domains, ls));
    }
  }

  lemma ChangedIsAnomalous(domains: set<string>, s: State)
    requires Shaped(s) && Changed(s)
    ensures Anomalous(Settle(domains, s))
  {
  }

  lemma {:induction false} SummedVerdict(domains: set<string>, first: Line, ls: seq<Line>, s: State)
    requires Shaped(s) && Summed(domains, first, ls, s)
    ensures Anomalous(Settle(domains, s)) <==> !Fine(domains, first, ls)
  {
    hide CharOf, IsDomain, Total, Addrs, Certs, Field, FineRecipient, BadRecipient;
    var r := Settle(domains, s);
    CharOfEqual(Total(Envelopes(), ls), 0);
    CharOfEqual(Total(Envelopes(), ls), 1);
    CharOfEqual(Total(Acceptances(), ls), 0);
    CharOfEqual(Total(Acceptances(), ls), 1);
    CharsOfFew();
    assert r.flag[OUTPUT] == if IsDomain(domains, first.sender) then C1 else C0;
    forall i | 0 <= i < |s.addrs|
      ensures BadRecipient(r, i) <==> !FineRecipient(domains, first, ls, i)
    {
      SummedRecipient(domains, first, ls, s, i);
    }
  }

  lemma CharsOfFew()
    ensures CharOf(0) == C0 && CharOf(1) == C1
  {
  }

  lemma {:induction false} SummedRecipient(domains: set<string>, first: Line, ls: seq<Line>, s: State, i: nat)
    requires Shaped(s) && Summed(domains, first, ls, s) && i < |s.addrs|
    requires Settle(domains, s).flag[OUTPUT] == if IsDomain(domains, first.sender) then C1 else C0
    ensures BadRecipient(Settle(domains, s), i) <==> !FineRecipient(domains, first, ls, i)
  {
    hide CharOf, IsDomain, Total, Addrs, Certs, Share;
    var c := s.recs[i];
    assert forall t :: Field(c, t) == CharOf(Count(first, ls, t, i));
    CharsOfFew();
    assert c.presa == Field(c, Presa) && c.mancata == Field(c, Mancata) && c.avvenuta == Field(c, Avvenuta);
    assert c.virus == Field(c, Virus) && c.mancataVirus == Field(c, MancataVirus);
    CharOfEqual(Count(first, ls, Virus, i), Count(first, ls, MancataVirus, i));
    CharOfEqual(Count(first, ls, Presa, i), 1);
    CharOfEqual(Count(first, ls, Presa, i), 0);
    CharOfEqual(Count(first, ls, Mancata, i), 0);
    CharOfEqual(Count(first, ls, Avvenuta, i), 0);
    CharOfEqual(Count(first, ls, Virus, i), 0);
    if !s.certs[i] {
      forall t ensures Count(first, ls, t, i) == 0 { UncertifiedNeverCounted(RollOf(first), t, i, ls); }
    }
  }

  /** Receipts of an uncertified recipient are strays, not counts. */
  lemma {:induction false} UncertifiedNeverCounted(w: Roll, t: Tally, i: nat, ls: seq<Line>)
    requires Balanced(w) && i < |w.addrs| && !w.certs[i]
    ensures Total(Share(w, t, i), ls) == 0
  {
    if ls != [] {
      UncertifiedNeverCounted(w, t, i, ls[..|ls| - 1]);
      NoHits(w, Named(ls[|ls| - 1]), i);
    }
  }

  lemma {:induction false} NoHits(w: Roll, tokens: seq<string>, i: nat)
    requires Balanced(w) && i < |w.addrs| && !w.certs[i]
    ensures Hits(w, tokens, i) == 0
  {
    if tokens != [] {
      NoHits(w, tokens[..|tokens| - 1], i);
    }
  }

  lemma SenderInDomain()
    ensures IsDomain({"x"}, "a@x")
  {
    assert Domain("a@x") == Domain("a@x"[1..]) == "x";
    assert Fold("x") == "x";
    assert "a@x"[1] == '@';
  }

  lemma TotalOfOne(f: Line -> nat, l: Line)
    ensures Total(f, [l]) == f(l)
  {
    assert [l][..0] == [];
  }

  lemma {:induction false} TotalOfMany(f: Line -> nat, l: Line, n: nat)
    ensures Total(f, seq(n, _ => l)) == n * f(l)
  {
    if n > 0 {
      TotalOfMany(f, l, n - 1);
      assert seq(n, _ => l)[..n - 1] == seq(n - 1, _ => l);
      assert n * f(l) == (n - 1) * f(l) + f(l);
    }
  }
}
