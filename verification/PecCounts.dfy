/** What the state of a message says about its log lines: every counter is the number of
    lines of its sort, as a wrapping char, whatever the order of the lines. */
module PecCounts {
  import opened PecModel

  // Sums over lines

  function Total(f: Line -> nat, ls: seq<Line>): nat {
    if ls == [] then 0 else Total(f, ls[..|ls| - 1]) + f(ls[|ls| - 1])
  }

  lemma {:induction false} TotalSplit(f: Line -> nat, a: seq<Line>, b: seq<Line>)
    ensures Total(f, a + b) == Total(f, a) + Total(f, b)
  {
    if b == [] {
      assert a + b == a;
    } else {
      var n := |b| - 1;
      TotalSplit(f, a, b[..n]);
      assert (a + b)[..|a + b| - 1] == a + b[..n];
    }
  }

  /** A sum does not depend on the order. */
  lemma {:induction false} TotalPermuted(f: Line -> nat, a: seq<Line>, b: seq<Line>)
    requires multiset(a) == multiset(b)
    ensures Total(f, a) == Total(f, b)
  {
    if a == [] {
      assert multiset(b) == multiset{};
      assert b == [];
    } else {
      var n := |a| - 1;
      var l := a[n];
      assert a == a[..n] + [l];
      assert l in multiset(b);
      var k :| 0 <= k < |b| && b[k] == l;
      assert b == b[..k] + [l] + b[k + 1..];
      assert multiset(a) == multiset(a[..n]) + multiset{l};
      assert multiset(b) == multiset(b[..k]) + multiset{l} + multiset(b[k + 1..]);
      assert multiset(b[..k] + b[k + 1..]) == multiset(b) - multiset{l};
      assert multiset(a[..n]) == multiset(a) - multiset{l};
      TotalPermuted(f, a[..n], b[..k] + b[k + 1..]);
      TotalSplit(f, b[..k], b[k + 1..]);
      TotalSplit(f, b[..k] + [l], b[k + 1..]);
    }
  }

  lemma {:induction false} TotalHas(f: Line -> nat, ls: seq<Line>, l: Line)
    requires l in ls && f(l) > 0
    ensures Total(f, ls) > 0
  {
    var n := |ls| - 1;
    if l != ls[n] {
      assert ls == ls[..n] + [ls[n]];
      TotalHas(f, ls[..n], l);
    }
  }

  lemma {:induction false} TotalFrom(f: Line -> nat, ls: seq<Line>) returns (l: Line)
    requires Total(f, ls) > 0
    ensures l in ls && f(l) > 0
  {
    var n := |ls| - 1;
    l := ls[n];
    if f(l) == 0 {
      l := TotalFrom(f, ls[..n]);
    }
  }

  lemma {:induction false} TotalSame(f: Line -> nat, g: Line -> nat, ls: seq<Line>)
    requires forall l :: l in ls ==> f(l) == g(l)
    ensures Total(f, ls) == Total(g, ls)
  {
    if ls != [] {
      assert ls[|ls| - 1] in ls;
      TotalSame(f, g, ls[..|ls| - 1]);
    }
  }

  // Receipts

  datatype Tally = Presa | Mancata | Avvenuta | Virus | MancataVirus

  function Field(c: Counters, t: Tally): schar {
    match t
    case Presa => c.presa
    case Mancata => c.mancata
    case Avvenuta => c.avvenuta
    case Virus => c.virus
    case MancataVirus => c.mancataVirus
  }

  /** The lines that a tally is about. */
  predicate Concerns(t: Tally, l: Line) {
    match t
    case Presa => l.kind.PresaInCarico?
    case Mancata => l.kind.ErroreConsegna?
    case Avvenuta => l.kind.AvvenutaConsegna?
    case Virus => l.kind.RilevazioneVirus?
    case MancataVirus => l.kind.ErroreConsegna? && l.virusError
  }

  /** The recipients of a message, as all its lines agree on them. */
  datatype Roll = Roll(addrs: seq<string>, certs: seq<bool>)

  predicate Balanced(w: Roll) { |w.certs| == |w.addrs| }

  /** How often the tokens name certified recipient i. */
  function Hits(w: Roll, tokens: seq<string>, i: nat): nat
    requires Balanced(w) && i < |w.addrs|
  {
    if tokens == [] then 0 else
    var t := tokens[|tokens| - 1];
    Hits(w, tokens[..|tokens| - 1], i) + if !Remark(t) && w.certs[i] && Find(w.addrs, t) == i then 1 else 0
  }

  /** How many tokens name no certified recipient. */
  function Strays(w: Roll, tokens: seq<string>): nat
    requires Balanced(w)
  {
    if tokens == [] then 0 else
    var t := tokens[|tokens| - 1];
    var i := Find(w.addrs, t);
    Strays(w, tokens[..|tokens| - 1]) + if !Remark(t) && (i == |w.addrs| || !w.certs[i]) then 1 else 0
  }

  /** What one line adds to a tally of recipient i. */
  function Share(w: Roll, t: Tally, i: nat): Line -> nat
    requires Balanced(w) && i < |w.addrs|
  {
    (l: Line) => if Concerns(t, l) then Hits(w, Named(l), i) else 0
  }

  /** What one line adds to the addresses behind a stray flag. */
  function StrayShare(w: Roll, f: nat): Line -> nat
    requires Balanced(w)
  {
    (l: Line) => if StrayFlag(l.kind) == f then Strays(w, Named(l)) else 0
  }

  function Envelopes(): Line -> nat { (l: Line) => if l.kind.PostaCertificata? then 1 else 0 }
  function Acceptances(): Line -> nat { (l: Line) => if l.kind.Accettazione? then 1 else 0 }

  ghost predicate SameBut(s: State, r: State) {
    r.sender == s.sender && r.destinatari == s.destinatari && r.addrs == s.addrs && r.certs == s.certs &&
      r.domini == s.domini
  }

  lemma {:induction false} ReceiptsKeep(s: State, l: Line, tokens: seq<string>)
    requires Shaped(s)
    ensures SameBut(s, Receipts(s, l, tokens))
  {
    if tokens != [] {
      ReceiptsKeep(s, l, tokens[..|tokens| - 1]);
    }
  }

  /** One address: only the tally of the recipient it names moves, and only by one. */
  lemma {:induction false} ReceiptCounts(s: State, l: Line, elem: string, i: nat, t: Tally)
    requires Shaped(s) && i < |s.addrs|
    ensures Field(Receipt(s, l, elem).recs[i], t) ==
            if s.certs[i] && Find(s.addrs, elem) == i && Concerns(t, l) then Inc(Field(s.recs[i], t))
            else Field(s.recs[i], t)
  {
    hide Find, Inc;
  }

  lemma {:induction false} ReceiptsCount(s: State, l: Line, tokens: seq<string>, i: nat, t: Tally, n: nat)
    requires Shaped(s) && i < |s.addrs| && Field(s.recs[i], t) == CharOf(n)
    ensures |Receipts(s, l, tokens).recs| == |s.addrs|
    ensures Field(Receipts(s, l, tokens).recs[i], t) ==
            CharOf(n + if Concerns(t, l) then Hits(Roll(s.addrs, s.certs), tokens, i) else 0)
  {
    hide CharOf, Field, Find, Receipt, Concerns, Remark;
    ReceiptsKeep(s, l, tokens);
    if tokens != [] {
      var front, w := tokens[..|tokens| - 1], Roll(s.addrs, s.certs);
      ReceiptsCount(s, l, front, i, t, n);
      ReceiptsKeep(s, l, front);
      ReceiptCounts(Receipts(s, l, front), l, tokens[|tokens| - 1], i, t);
      CharOfNext(n + if Concerns(t, l) then Hits(w, front, i) else 0);
    }
  }

  lemma {:induction false} ReceiptsFlags(s: State, l: Line, tokens: seq<string>)
    requires Shaped(s)
    ensures Receipts(s, l, tokens).flag ==
            if Strays(Roll(s.addrs, s.certs), tokens) > 0 then s.flag[StrayFlag(l.kind) := C1] else s.flag
  {
    if tokens != [] {
      var front := tokens[..|tokens| - 1];
      ReceiptsFlags(s, l, front);
      ReceiptsKeep(s, l, front);
    }
  }

  // Coherent lines

  /** All lines agree on sender and recipients, ignoring case. */
  ghost predicate Coherent(ls: seq<Line>) {
    forall k :: 0 <= k < |ls| ==>
      Fold(ls[k].sender) == Fold(ls[0].sender) && FoldAll(ls[k].recipients) == FoldAll(ls[0].recipients)
  }

  function RollOf(l: Line): (w: Roll)
    ensures Balanced(w)
  {
    Roll(Addrs(l.recipients), Certs(l.recipients))
  }

  function Flagged(n: nat): schar { if n > 0 then C1 else C0 }

  /** The state of a message that began with line `first` is the sum of the lines ls. */
  ghost predicate Summed(domains: set<string>, first: Line, ls: seq<Line>, s: State)
    requires Shaped(s)
  {
    var w := RollOf(first);
    && s.sender == first.sender && s.destinatari == first.recipients
    && s.addrs == w.addrs && s.certs == w.certs && s.domini == Domini(domains, w.addrs)
    && SummedFlags(domains, first, ls, s.flag)
    && (forall i, t :: 0 <= i < |s.addrs| ==> Field(s.recs[i], t) == CharOf(Total(Share(w, t, i), ls)))
  }

  ghost predicate SummedFlags(domains: set<string>, first: Line, ls: seq<Line>, flag: seq<schar>)
    requires |flag| == 8
  {
    var w := RollOf(first);
    && flag[MITTENTE_CHANGE] == C0 && flag[DESTINATARI_CHANGE] == C0
    && flag[BUSTA_TRASPORTO] == CharOf(Total(Envelopes(), ls))
    && flag[ACCETTAZIONE] == CharOf(Total(Acceptances(), ls))
    && flag[OUTPUT] == (if Total(Envelopes(), ls) > 0 && IsDomain(domains, first.sender) then C1 else C0)
    && flag[PRESA_IN_CARICO] == Flagged(Total(StrayShare(w, PRESA_IN_CARICO), ls))
    && flag[RILEVAZIONE_VIRUS] == Flagged(Total(StrayShare(w, RILEVAZIONE_VIRUS), ls))
    && flag[CONSEGNA] == Flagged(Total(StrayShare(w, CONSEGNA), ls))
  }

  /** One more line on the counters. */
  lemma {:induction false} ApplyCounts(domains: set<string>, s: State, l: Line, i: nat, t: Tally, n: nat)
    requires Shaped(s) && i < |s.addrs| && Field(s.recs[i], t) == CharOf(n)
    ensures |Apply(domains, s, l).recs| == |s.addrs|
    ensures Field(Apply(domains, s, l).recs[i], t) == CharOf(n + Share(Roll(s.addrs, s.certs), t, i)(l))
  {
    hide CharOf, Hits, Field;
    ReceiptsKeep(s, l, Named(l));
    ReceiptsCount(s, l, Named(l), i, t, n);
  }

  /** One more line on the flags, where every flag has the given counts behind it. */
  lemma {:induction false} ApplyFlags(domains: set<string>, s: State, l: Line)
    requires Shaped(s)
    ensures SameBut(s, Apply(domains, s, l))
    ensures var f, w := Apply(domains, s, l).flag, Roll(s.addrs, s.certs);
            && f[MITTENTE_CHANGE] == s.flag[MITTENTE_CHANGE] && f[DESTINATARI_CHANGE] == s.flag[DESTINATARI_CHANGE]
            && f[BUSTA_TRASPORTO] ==
                 (if l.kind.PostaCertificata? then Inc(s.flag[BUSTA_TRASPORTO]) else s.flag[BUSTA_TRASPORTO])
            && f[ACCETTAZIONE] == (if l.kind.Accettazione? then Inc(s.flag[ACCETTAZIONE]) else s.flag[ACCETTAZIONE])
            && f[OUTPUT] == (if l.kind.PostaCertificata? && IsDomain(domains, s.sender) then C1 else s.flag[OUTPUT])
            && (forall k :: k in {PRESA_IN_CARICO, RILEVAZIONE_VIRUS, CONSEGNA} ==>
                  f[k] == if StrayShare(w, k)(l) > 0 then C1 else s.flag[k])
  {
    hide Strays, IsDomain;
    assert Strays(Roll(s.addrs, s.certs), []) == 0 by { NoStrays(Roll(s.addrs, s.certs)); }
    ReceiptsKeep(s, l, Named(l));
    ReceiptsFlags(s, l, Named(l));
  }

  lemma NoStrays(w: Roll)
    requires Balanced(w)
    ensures Strays(w, []) == 0
  {
  }

  /** A new message is the sum of no lines. */
  lemma {:induction false} InitSummed(domains: set<string>, l: Line)
    ensures Summed(domains, l, [], Init(domains, l))
  {
    hide Addrs, Certs, Domini, IsDomain;
    NothingYet(RollOf(l));
  }

  lemma NothingYet(w: Roll)
    requires Balanced(w)
    ensures Total(Envelopes(), []) == 0 && Total(Acceptances(), []) == 0
    ensures forall f :: Total(StrayShare(w, f), []) == 0
    ensures forall t, i :: 0 <= i < |w.addrs| ==> Total(Share(w, t, i), []) == 0
  {
  }

  /** Adding a line to a state that is the sum of the lines before it. */
  lemma {:induction false} OneMoreLine(domains: set<string>, first: Line, front: seq<Line>, l: Line, s: State)
    requires Shaped(s) && Summed(domains, first, front, s)
    ensures Summed(domains, first, front + [l], Apply(domains, s, l))
  {
    hide CharOf, Share, StrayShare, Apply, IsDomain, Field, Addrs, Certs, Domini;
    var w, r, ls := RollOf(first), Apply(domains, s, l), front + [l];
    assert w == Roll(s.addrs, s.certs);
    assert ls[..|ls| - 1] == front;
    ApplyFlags(domains, s, l);
    CharOfNext(Total(Envelopes(), front));
    CharOfNext(Total(Acceptances(), front));
    forall i, t | 0 <= i < |s.addrs|
      ensures Field(r.recs[i], t) == CharOf(Total(Share(w, t, i), ls))
    {
      ApplyCounts(domains, s, l, i, t, Total(Share(w, t, i), front));
    }
    var f := r.flag;
    forall k | k in {PRESA_IN_CARICO, RILEVAZIONE_VIRUS, CONSEGNA}
      ensures f[k] == Flagged(Total(StrayShare(w, k), ls))
    {
      assert Total(StrayShare(w, k), ls) == Total(StrayShare(w, k), front) + StrayShare(w, k)(l);
    }
  }

  /** For coherent lines the state is the sum of the lines. */
  lemma {:induction false} RunSummed(domains: set<string>, ls: seq<Line>)
    requires ls != [] && Coherent(ls)
    ensures Summed(domains, ls[0], ls, Run(domains, ls))
  {
    hide Apply, Init, Fold, FoldAll, SummedFlags, Total;
    var n := |ls| - 1;
    var l := ls[n];
    if n == 0 {
      InitSummed(domains, l);
      OneMoreLine(domains, l, [], l, Init(domains, l));
      assert ls == [] + [l];
    } else {
      var front := ls[..n];
      assert front[0] == ls[0];
      RunSummed(domains, front);
      NotChanged(domains, ls[0], front, Run(domains, front));
      OneMoreLine(domains, ls[0], front, l, Run(domains, front));
      assert ls == front + [l];
    }
  }

  lemma NotChanged(domains: set<string>, first: Line, ls: seq<Line>, s: State)
    requires Shaped(s) && Summed(domains, first, ls, s)
    ensures !Changed(s)
  {
  }

  /** Lines that disagree leave a mark that stays. */
  lemma {:induction false} RunIncoherent(domains: set<string>, ls: seq<Line>)
    requires ls != [] && !Coherent(ls)
    ensures Changed(Run(domains, ls))
  {
    hide Apply, Init, Fold, FoldAll, SummedFlags, Total;
    var n := |ls| - 1;
    var front := ls[..n];
    assert forall k :: 0 <= k < n ==> front[k] == ls[k];
    assert n > 0;
    if Coherent(front) {
      RunSummed(domains, front);
      NotChanged(domains, ls[0], front, Run(domains, front));
    } else {
      RunIncoherent(domains, front);
    }
  }
}
