/** Each text of the report in terms of the log lines of the message. */
module PecLines {
  import opened PecModel
  import opened PecCounts
  import opened PecVerdict
  import opened PecFields
  import opened PecTexts

  // Recipients

  /** The receipts that count for recipient i. */
  ghost function Got(first: Line, ls: seq<Line>, i: nat): Sums
    requires i < |RollOf(first).addrs|
  {
    if RollOf(first).certs[i] then SumsOf(RollOf(first).addrs, ls, i) else Sums(0, 0, 0, 0, 0)
  }

  /** Recipient i is owed a take-over and a delivery. */
  predicate OwedTo(domains: set<string>, first: Line, i: nat)
    requires i < |RollOf(first).addrs|
  {
    RollOf(first).certs[i] && (IsDomain(domains, first.sender) || IsDomain(domains, RollOf(first).addrs[i]))
  }

  /** Deliveries and failures, and for a received message virus detections too. */
  ghost function Delivered(domains: set<string>, first: Line, ls: seq<Line>, i: nat): nat
    requires i < |RollOf(first).addrs|
  {
    var g := Got(first, ls, i);
    g.failures + g.successes + if IsDomain(domains, first.sender) then 0 else g.viruses
  }

  ghost predicate NoTakeOver(domains: set<string>, first: Line, ls: seq<Line>, i: nat)
    requires i < |RollOf(first).addrs|
  {
    OwedTo(domains, first, i) && Got(first, ls, i).takeOvers == 0
  }

  ghost predicate ManyTakeOvers(domains: set<string>, first: Line, ls: seq<Line>, i: nat)
    requires i < |RollOf(first).addrs|
  {
    OwedTo(domains, first, i) && Got(first, ls, i).takeOvers >= 2
  }

  /** An earlier recipient has the same trouble with its take-over. */
  ghost predicate PassedOver(domains: set<string>, first: Line, ls: seq<Line>, i: nat)
    requires i < |RollOf(first).addrs|
  {
    exists j :: 0 <= j < i &&
                ((NoTakeOver(domains, first, ls, i) && NoTakeOver(domains, first, ls, j)) ||
                 (ManyTakeOvers(domains, first, ls, i) && ManyTakeOvers(domains, first, ls, j)))
  }

  ghost predicate ManyDelivered(domains: set<string>, first: Line, ls: seq<Line>, i: nat)
    requires i < |RollOf(first).addrs|
  {
    OwedTo(domains, first, i) && !PassedOver(domains, first, ls, i) && Delivered(domains, first, ls, i) >= 2
  }

  ghost predicate ManyEarlier(domains: set<string>, first: Line, ls: seq<Line>, i: nat)
    requires i < |RollOf(first).addrs|
  {
    exists j :: 0 <= j < i && ManyDelivered(domains, first, ls, j)
  }

  /** Receipts of different sorts. */
  ghost predicate Mixed(domains: set<string>, first: Line, ls: seq<Line>, i: nat)
    requires i < |RollOf(first).addrs|
  {
    var g := Got(first, ls, i);
    g.failures > 0 && g.successes > 0 && (IsDomain(domains, first.sender) || g.viruses > 0)
  }

  /** Recipient i is a reason for the text. */
  ghost predicate Reason(domains: set<string>, first: Line, ls: seq<Line>, e: Exception, i: nat)
    requires i < |RollOf(first).addrs|
  {
    var g, sent, owed := Got(first, ls, i), IsDomain(domains, first.sender), OwedTo(domains, first, i);
    match e
    case RilevazioneVirusMancante => sent && g.viruses == 0 < g.virusFailures
    case MancataConsegnaVirusMancante => sent && g.virusFailures == 0 < g.viruses
    case RilevazioneVirusDuplicata => sent && 0 < g.virusFailures < g.viruses
    case MancataConsegnaVirusDuplicata => sent && 0 < g.viruses < g.virusFailures
    case PresaInCaricoMancante => owed && g.takeOvers == 0
    case PresaInCaricoDuplicata => owed && g.takeOvers >= 2
    case ConsegnaMancante => owed && Delivered(domains, first, ls, i) == 0 && !PassedOver(domains, first, ls, i)
    case ConsegnaDuplicata =>
      ManyDelivered(domains, first, ls, i) && !ManyEarlier(domains, first, ls, i) && !Mixed(domains, first, ls, i)
    case ConsegnaInConflitto =>
      ManyDelivered(domains, first, ls, i) && !ManyEarlier(domains, first, ls, i) && Mixed(domains, first, ls, i)
    case PresaInCaricoIncoerente => !owed && g.takeOvers > 0
    case RilevazioneVirusIncoerente => !owed && g.viruses > 0
    case ConsegnaIncoerente => !owed && g.failures + g.successes > 0
    case _ => false
  }

  /** The message as a whole is a reason for the text. */
  ghost predicate WholeReason(domains: set<string>, first: Line, ls: seq<Line>, e: Exception) {
    var w, sent := RollOf(first), IsDomain(domains, first.sender);
    var envelopes, acceptances := Total(OfKind(PostaCertificata), ls), Total(OfKind(Accettazione), ls);
    match e
    case BustaMancante => envelopes == 0
    case BustaDuplicata => envelopes >= 2
    case AccettazioneMancante => sent && acceptances == 0
    case AccettazioneIncoerente => !sent && acceptances == 1
    case AccettazioneDuplicata => acceptances >= 2
    case PresaInCaricoIncoerente => StrayTakeOver(w, ls)
    case RilevazioneVirusIncoerente => StrayVirus(w, ls)
    case ConsegnaIncoerente => StrayDelivery(w, ls)
    case _ => false
  }

  // The state behind the lines

  /** The state says what the lines say. */
  ghost predicate Reads(domains: set<string>, first: Line, ls: seq<Line>, s: State)
    requires Shaped(s)
  {
    var w, sent := RollOf(first), IsDomain(domains, first.sender);
    && s.addrs == w.addrs && s.certs == w.certs && s.domini == Domini(domains, w.addrs) && !Changed(s)
    && s.flag[OUTPUT] == (if sent then C1 else C0)
    && s.flag[BUSTA_TRASPORTO] == 48 + Total(OfKind(PostaCertificata), ls)
    && s.flag[ACCETTAZIONE] == 48 + Total(OfKind(Accettazione), ls)
    && (s.flag[PRESA_IN_CARICO] != C0 <==> StrayTakeOver(w, ls))
    && (s.flag[RILEVAZIONE_VIRUS] != C0 <==> StrayVirus(w, ls))
    && (s.flag[CONSEGNA] != C0 <==> StrayDelivery(w, ls))
    && forall i :: 0 <= i < |w.addrs| ==> ReadsSums(s.recs[i], Got(first, ls, i))
  }

  predicate ReadsSums(c: Counters, g: Sums) {
    && c.presa == 48 + g.takeOvers && c.mancata == 48 + g.failures && c.mancataVirus == 48 + g.virusFailures
    && c.avvenuta == 48 + g.successes && c.virus == 48 + g.viruses
  }

  lemma {:induction false} StateReads(domains: set<string>, ls: seq<Line>)
    requires ls != [] && Coherent(ls) && Few(ls[0], ls)
    ensures Reads(domains, ls[0], ls, Settle(domains, Run(domains, ls)))
  {
    hide Run, Coherent, Total, IsDomain, Domini, CharOf, StrayTakeOver, StrayVirus, StrayDelivery, RollOf, SumsOf;
    var first, r := ls[0], Run(domains, ls);
    var s, w := Settle(domains, r), RollOf(first);
    RunSummed(domains, ls);
    KindTotals(ls);
    StrayTotals(w, ls);
    assert CharOf(0) == C0;
    forall i | 0 <= i < |w.addrs|
      ensures ReadsSums(s.recs[i], Got(first, ls, i))
    {
      TalliesAreSums(first, ls, i);
      assert forall t :: Field(s.recs[i], t) == CharOf(Count(first, ls, t, i));
      var c := s.recs[i];
      assert c.presa == Field(c, Presa) && c.mancata == Field(c, Mancata) && c.avvenuta == Field(c, Avvenuta);
      assert c.virus == Field(c, Virus) && c.mancataVirus == Field(c, MancataVirus);
    }
  }

  lemma {:induction false} OwedReads(domains: set<string>, first: Line, ls: seq<Line>, s: State, i: nat)
    requires Shaped(s) && Reads(domains, first, ls, s) && i < |s.addrs|
    ensures Owed(s, i) == OwedTo(domains, first, i)
    ensures Lacks(s, i) == NoTakeOver(domains, first, ls, i) && Doubles(s, i) == ManyTakeOvers(domains, first, ls, i)
    ensures Deliveries(s, i) == Delivered(domains, first, ls, i) && Conflict(s, i) == Mixed(domains, first, ls, i)
  {
    hide Got, RollOf, IsDomain, Total;
    assert ReadsSums(s.recs[i], Got(first, ls, i));
  }

  lemma {:induction false} SkippedReads(domains: set<string>, first: Line, ls: seq<Line>, s: State, i: nat)
    requires Shaped(s) && Reads(domains, first, ls, s) && i < |s.addrs|
    ensures Skipped(s, i) == PassedOver(domains, first, ls, i) && Many(s, i) == ManyDelivered(domains, first, ls, i)
  {
    hide Lacks, Doubles, NoTakeOver, ManyTakeOvers, RollOf, Delivered, Deliveries, Owed, OwedTo, Got, Total, IsDomain;
    forall j | 0 <= j < |s.addrs|
      ensures Lacks(s, j) == NoTakeOver(domains, first, ls, j) && Doubles(s, j) == ManyTakeOvers(domains, first, ls, j)
    {
      OwedReads(domains, first, ls, s, j);
    }
    OwedReads(domains, first, ls, s, i);
  }

  lemma {:induction false} SaysReads(domains: set<string>, first: Line, ls: seq<Line>, s: State, e: Exception, i: nat)
    requires Shaped(s) && Reads(domains, first, ls, s) && i < |s.addrs|
    ensures Says(s, e, i) == Reason(domains, first, ls, e, i)
  {
    hide Many, ManyDelivered, Skipped, PassedOver, Conflict, Mixed, Got, RollOf, IsDomain, Total, Delivered;
    hide Deliveries, OwedTo, Owed;
    OwedReads(domains, first, ls, s, i);
    SkippedReads(domains, first, ls, s, i);
    forall j | 0 <= j < |s.addrs| ensures Many(s, j) == ManyDelivered(domains, first, ls, j) {
      SkippedReads(domains, first, ls, s, j);
    }
    assert ReadsSums(s.recs[i], Got(first, ls, i));
  }

  /** Every text of the report on coherent lines, below eighty of each sort: it is printed exactly if the lines are
      a reason for it, as a whole or for one recipient. */
  lemma {:induction false} TextsByLines(domains: set<string>, ls: seq<Line>, e: Exception)
    requires ls != [] && Coherent(ls) && Few(ls[0], ls)
    ensures Printed(Settle(domains, Run(domains, ls)), e) <==>
            || WholeReason(domains, ls[0], ls, e)
            || exists i :: 0 <= i < |RollOf(ls[0]).addrs| && Reason(domains, ls[0], ls, e, i)
  {
    hide Run, Settle, Coherent, Few, Reason, Says, RollOf, IsDomain, Total, Got;
    var first, s := ls[0], Settle(domains, Run(domains, ls));
    StateReads(domains, ls);
    forall i | 0 <= i < |s.addrs| ensures Says(s, e, i) == Reason(domains, first, ls, e, i) {
      SaysReads(domains, first, ls, s, e, i);
    }
    assert FlagsSay(s, e) == WholeReason(domains, first, ls, e);
  }

  // Lines that disagree

  ghost predicate Agree(k: Line, l: Line) {
    Fold(k.sender) == Fold(l.sender) && FoldAll(k.recipients) == FoldAll(l.recipients)
  }

  /** The first line that does not agree with the first of all. */
  lemma {:induction false} FirstDisagreement(ls: seq<Line>) returns (k: nat)
    requires ls != [] && !Coherent(ls)
    ensures 0 < k < |ls| && !Agree(ls[k], ls[0]) && forall j :: 0 <= j < k ==> Agree(ls[j], ls[0])
  {
    hide Fold, FoldAll;
    var n := |ls| - 1;
    if Coherent(ls[..n]) {
      k := n;
      assert forall j :: 0 <= j < n ==> ls[..n][j] == ls[j];
    } else {
      k := FirstDisagreement(ls[..n]);
    }
  }

  /** The line that disagrees sets one of the two marks, and no later line changes the message. */
  lemma {:induction false} RunDisagrees(domains: set<string>, ls: seq<Line>, k: nat)
    requires 0 < k < |ls| && !Agree(ls[k], ls[0]) && forall j :: 0 <= j < k ==> Agree(ls[j], ls[0])
    ensures var s, other := Run(domains, ls), Fold(ls[k].sender) != Fold(ls[0].sender);
            && (s.flag[MITTENTE_CHANGE] == C1 <==> other) && (s.flag[DESTINATARI_CHANGE] == C1 <==> !other)
            && s.sender == if other && ls[k].kind == PostaCertificata then ls[k].sender else ls[0].sender
  {
    hide Fold, FoldAll, Apply, Init, SummedFlags;
    var n := |ls| - 1;
    if k < n {
      RunDisagrees(domains, ls[..n], k);
    } else {
      var front := ls[..n];
      assert forall j :: 0 <= j < n ==> front[j] == ls[j];
      RunSummed(domains, front);
      Unmarked(domains, ls[0], front, Run(domains, front));
    }
  }

  lemma Unmarked(domains: set<string>, first: Line, ls: seq<Line>, s: State)
    requires Shaped(s) && Summed(domains, first, ls, s)
    ensures s.flag[MITTENTE_CHANGE] == C0 && s.flag[DESTINATARI_CHANGE] == C0
  {
  }

  /** The report on lines that disagree: one text, about what the first disagreement is about. The sender of an
      envelope takes precedence over that of the first line. */
  lemma {:induction false} DisagreementText(domains: set<string>, ls: seq<Line>) returns (k: nat)
    requires ls != [] && !Coherent(ls)
    ensures 0 < k < |ls| && !Agree(ls[k], ls[0]) && forall j :: 0 <= j < k ==> Agree(ls[j], ls[0])
    ensures var s, other := Settle(domains, Run(domains, ls)), Fold(ls[k].sender) != Fold(ls[0].sender);
            && (forall e :: Printed(s, e) <==> e == if other then MittenteIncoerente else DestinatariIncoerenti)
            && s.sender == if other && ls[k].kind == PostaCertificata then ls[k].sender else ls[0].sender
  {
    hide Run, Coherent, Fold, Agree, SaidBefore, IsDomain;
    k := FirstDisagreement(ls);
    RunDisagrees(domains, ls, k);
  }
}
