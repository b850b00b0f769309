/** The exception texts of the report on a message, and exactly when each of them is printed. */
module PecTexts {
  import opened PecModel

  datatype Exception =
    | MittenteIncoerente
    | DestinatariIncoerenti
    | BustaMancante
    | BustaDuplicata
    | AccettazioneMancante
    | AccettazioneIncoerente
    | AccettazioneDuplicata
    | RilevazioneVirusMancante
    | MancataConsegnaVirusMancante
    | RilevazioneVirusDuplicata
    | MancataConsegnaVirusDuplicata
    | PresaInCaricoMancante
    | PresaInCaricoDuplicata
    | ConsegnaMancante
    | ConsegnaDuplicata
    | ConsegnaInConflitto
    | PresaInCaricoIncoerente
    | RilevazioneVirusIncoerente
    | ConsegnaIncoerente

  /** Deliveries and failures of a recipient, and virus detections too if the message was received. */
  function Deliveries(s: State, i: nat): int
    requires Shaped(s) && i < |s.addrs|
  {
    var c := s.recs[i];
    (c.mancata - 48) + (c.avvenuta - 48) + if Sent(s) then 0 else c.virus - 48
  }

  predicate Sent(s: State)
    requires Shaped(s)
  {
    s.flag[OUTPUT] == C1
  }

  /** The message owes recipient i a take-over and a delivery. */
  predicate Owed(s: State, i: nat)
    requires Shaped(s) && i < |s.addrs|
  {
    s.certs[i] && (Sent(s) || s.domini[i])
  }

  predicate Lacks(s: State, i: nat)
    requires Shaped(s) && i < |s.addrs|
  {
    Owed(s, i) && s.recs[i].presa == C0
  }

  predicate Doubles(s: State, i: nat)
    requires Shaped(s) && i < |s.addrs|
  {
    Owed(s, i) && s.recs[i].presa != C0 && s.recs[i].presa != C1
  }

  /** An earlier recipient has the same trouble with its take-over: then the deliveries of recipient i are not looked
      at. */
  predicate Skipped(s: State, i: nat)
    requires Shaped(s) && i < |s.addrs|
  {
    exists j :: 0 <= j < i && ((Lacks(s, i) && Lacks(s, j)) || (Doubles(s, i) && Doubles(s, j)))
  }

  predicate Many(s: State, i: nat)
    requires Shaped(s) && i < |s.addrs|
  {
    Owed(s, i) && !Skipped(s, i) && Deliveries(s, i) != 0 && Deliveries(s, i) != 1
  }

  predicate ManyBefore(s: State, i: nat)
    requires Shaped(s) && i <= |s.addrs|
  {
    exists j :: 0 <= j < i && Many(s, j)
  }

  predicate Conflict(s: State, i: nat)
    requires Shaped(s) && i < |s.addrs|
  {
    s.recs[i].mancata != C0 && s.recs[i].avvenuta != C0 && (Sent(s) || s.recs[i].virus != C0)
  }

  /** Recipient i gives reason for the text. */
  predicate Says(s: State, e: Exception, i: nat)
    requires Shaped(s) && i < |s.addrs|
  {
    var c := s.recs[i];
    match e
    case RilevazioneVirusMancante => Sent(s) && c.virus == C0 != c.mancataVirus
    case MancataConsegnaVirusMancante => Sent(s) && c.mancataVirus == C0 != c.virus
    case RilevazioneVirusDuplicata => Sent(s) && c.virus != C0 && c.mancataVirus != C0 && c.virus > c.mancataVirus
    case MancataConsegnaVirusDuplicata => Sent(s) && c.virus != C0 && c.mancataVirus != C0 && c.virus < c.mancataVirus
    case PresaInCaricoMancante => Lacks(s, i)
    case PresaInCaricoDuplicata => Doubles(s, i)
    case ConsegnaMancante => Owed(s, i) && !Skipped(s, i) && Deliveries(s, i) == 0
    case ConsegnaDuplicata => Many(s, i) && !ManyBefore(s, i) && !Conflict(s, i)
    case ConsegnaInConflitto => Many(s, i) && !ManyBefore(s, i) && Conflict(s, i)
    case PresaInCaricoIncoerente => !Owed(s, i) && c.presa != C0
    case RilevazioneVirusIncoerente => !Owed(s, i) && c.virus != C0
    case ConsegnaIncoerente => !Owed(s, i) && (c.mancata != C0 || c.avvenuta != C0)
    case _ => false
  }

  predicate SaidBefore(s: State, e: Exception, i: nat)
    requires Shaped(s) && i <= |s.addrs|
  {
    exists j :: 0 <= j < i && Says(s, e, j)
  }

  /** The flags give reason for the text. */
  predicate FlagsSay(s: State, e: Exception)
    requires Shaped(s)
  {
    match e
    case MittenteIncoerente => s.flag[MITTENTE_CHANGE] == C1
    case DestinatariIncoerenti => s.flag[DESTINATARI_CHANGE] == C1
    case _ => !Changed(s) && OtherFlagsSay(s, e)
  }

  predicate OtherFlagsSay(s: State, e: Exception)
    requires Shaped(s)
  {
    match e
    case BustaMancante => s.flag[BUSTA_TRASPORTO] == C0
    case BustaDuplicata => s.flag[BUSTA_TRASPORTO] != C0 && s.flag[BUSTA_TRASPORTO] != C1
    case AccettazioneMancante => s.flag[OUTPUT] != s.flag[ACCETTAZIONE] && s.flag[ACCETTAZIONE] == C0
    case AccettazioneIncoerente => s.flag[OUTPUT] != s.flag[ACCETTAZIONE] && s.flag[ACCETTAZIONE] == C1
    case AccettazioneDuplicata =>
      s.flag[OUTPUT] != s.flag[ACCETTAZIONE] && s.flag[ACCETTAZIONE] != C0 && s.flag[ACCETTAZIONE] != C1
    case PresaInCaricoIncoerente => s.flag[PRESA_IN_CARICO] != C0
    case RilevazioneVirusIncoerente => s.flag[RILEVAZIONE_VIRUS] != C0
    case ConsegnaIncoerente => s.flag[CONSEGNA] != C0
    case _ => false
  }

  /** The text is printed for the message. */
  predicate Printed(s: State, e: Exception)
    requires Shaped(s)
  {
    FlagsSay(s, e) || (!Changed(s) && SaidBefore(s, e, |s.addrs|))
  }

  /** Something is printed exactly for an anomalous message. */
  lemma {:induction false} PrintedAnomalous(s: State)
    requires Shaped(s)
    ensures (exists e :: Printed(s, e)) <==> Anomalous(s)
  {
    hide Says, FlagsSay, BadRecipient, BadFlags, Changed;
    forall e | Printed(s, e)
      ensures Anomalous(s)
    {
      if FlagsSay(s, e) {
        FlagsSayBad(s, e);
      } else {
        var i :| 0 <= i < |s.addrs| && Says(s, e, i);
        SaysBad(s, e, i);
      }
    }
    if BadFlags(s) {
      var e := BadFlagsSay(s);
      assert Printed(s, e);
    } else if Anomalous(s) {
      var i :| 0 <= i < |s.addrs| && BadRecipient(s, i);
      var e, j := BadSays(s, i);
      assert !Changed(s) by { BadFlagsChanged(s); }
      assert Printed(s, e);
    }
  }

  lemma BadFlagsChanged(s: State)
    requires Shaped(s) && !BadFlags(s)
    ensures !Changed(s)
  {
  }

  lemma FlagsSayBad(s: State, e: Exception)
    requires Shaped(s) && FlagsSay(s, e)
    ensures BadFlags(s)
  {
  }

  lemma BadFlagsSay(s: State) returns (e: Exception)
    requires Shaped(s) && BadFlags(s)
    ensures FlagsSay(s, e)
  {
    e :=
      if s.flag[MITTENTE_CHANGE] == C1 then MittenteIncoerente
      else if s.flag[DESTINATARI_CHANGE] == C1 then DestinatariIncoerenti
      else if s.flag[BUSTA_TRASPORTO] == C0 then BustaMancante
      else if s.flag[BUSTA_TRASPORTO] != C1 then BustaDuplicata
      else if s.flag[PRESA_IN_CARICO] != C0 then PresaInCaricoIncoerente
      else if s.flag[RILEVAZIONE_VIRUS] != C0 then RilevazioneVirusIncoerente
      else if s.flag[CONSEGNA] != C0 then ConsegnaIncoerente
      else if s.flag[ACCETTAZIONE] == C0 then AccettazioneMancante
      else if s.flag[ACCETTAZIONE] == C1 then AccettazioneIncoerente
      else AccettazioneDuplicata;
  }

  lemma SaysBad(s: State, e: Exception, i: nat)
    requires Shaped(s) && i < |s.addrs| && Says(s, e, i)
    ensures BadRecipient(s, i)
  {
    hide Skipped, ManyBefore;
  }

  lemma {:induction false} FirstMany(s: State, i: nat) returns (j: nat)
    requires Shaped(s) && i < |s.addrs| && Many(s, i)
    ensures j < |s.addrs| && Many(s, j) && !ManyBefore(s, j)
  {
    hide Many;
    j := i;
    if ManyBefore(s, i) {
      var k :| 0 <= k < i && Many(s, k);
      j := FirstMany(s, k);
    }
  }

  /** What is wrong with a recipient is printed, for it or for an earlier one. */
  lemma {:induction false} BadSays(s: State, i: nat) returns (e: Exception, j: nat)
    requires Shaped(s) && i < |s.addrs| && BadRecipient(s, i)
    ensures j < |s.addrs| && Says(s, e, j)
  {
    hide ManyBefore;
    var c := s.recs[i];
    j := i;
    if Sent(s) && c.virus != c.mancataVirus {
      e := if c.virus == C0 then RilevazioneVirusMancante else if c.mancataVirus == C0 then MancataConsegnaVirusMancante
           else if c.virus > c.mancataVirus then RilevazioneVirusDuplicata else MancataConsegnaVirusDuplicata;
    } else if !Owed(s, i) {
      e := if c.presa != C0 then PresaInCaricoIncoerente
        else if c.virus != C0 then RilevazioneVirusIncoerente else ConsegnaIncoerente;
    } else if c.presa != C1 {
      e := if c.presa == C0 then PresaInCaricoMancante else PresaInCaricoDuplicata;
    } else if Deliveries(s, i) == 0 {
      e := ConsegnaMancante;
    } else {
      assert Many(s, i);
      j := FirstMany(s, i);
      e := if Conflict(s, j) then ConsegnaInConflitto else ConsegnaDuplicata;
    }
  }

  /** Which missing deliveries stay unprinted: all of them exactly if every recipient without a delivery is skipped,
      and likewise for recipients with more than one. */
  lemma {:induction false} HiddenExactly(s: State)
    requires Shaped(s) && !Changed(s)
    ensures !Printed(s, ConsegnaMancante) <==>
            forall i :: 0 <= i < |s.addrs| && Owed(s, i) && Deliveries(s, i) == 0 ==> Skipped(s, i)
    ensures !Printed(s, ConsegnaDuplicata) && !Printed(s, ConsegnaInConflitto) <==>
            forall i :: 0 <= i < |s.addrs| && Owed(s, i) && Deliveries(s, i) != 0 && Deliveries(s, i) != 1 ==>
                          Skipped(s, i)
  {
    hide Changed, Skipped, Conflict, Deliveries, Owed;
    forall i | 0 <= i < |s.addrs| && Owed(s, i) && Deliveries(s, i) == 0 && !Skipped(s, i)
      ensures Printed(s, ConsegnaMancante)
    {
      assert Says(s, ConsegnaMancante, i);
    }
    forall i | 0 <= i < |s.addrs| && Owed(s, i) && Deliveries(s, i) != 0 && Deliveries(s, i) != 1 && !Skipped(s, i)
      ensures Printed(s, ConsegnaDuplicata) || Printed(s, ConsegnaInConflitto)
    {
      assert Many(s, i);
      var j := FirstMany(s, i);
      assert Says(s, if Conflict(s, j) then ConsegnaInConflitto else ConsegnaDuplicata, j);
    }
  }

  const RECIPIENTS := ["b@x", "(certificato)", "c@x", "(certificato)"]
  const SENT := Line("id", "a@x", RECIPIENTS, PostaCertificata, [], [], false)
  const ACCEPTED := SENT.(kind := Accettazione)
  const DELIVERED := SENT.(kind := AvvenutaConsegna, consegna := ["b@x"])

  /** A message is sent to two recipients and delivered to the first. Take-overs are missing for both, and the text
      about them hides that the delivery to the second is missing. */
  lemma {:induction false} HiddenDelivery()
    ensures var s := Settle({"x"}, Run({"x"}, [SENT, ACCEPTED, DELIVERED]));
            |s.addrs| == 2 && Owed(s, 1) && Deliveries(s, 1) == 0 && !Printed(s, ConsegnaMancante)
  {
    var s := Settle({"x"}, Run({"x"}, [SENT, ACCEPTED, DELIVERED]));
    HiddenRun();
    assert Lacks(s, 0) && Lacks(s, 1);
    assert Skipped(s, 1);
    assert Deliveries(s, 0) == 1;
    HiddenExactly(s);
  }

  lemma {:induction false} HiddenRun()
    ensures Settle({"x"}, Run({"x"}, [SENT, ACCEPTED, DELIVERED])) ==
            State("a@x", RECIPIENTS, [C1, C0, C1, C1, C0, C0, C0, C0], ["b@x", "c@x"], [true, true], [true, true],
                  [NO_RECEIPTS.(avvenuta := C1), NO_RECEIPTS])
  {
    hide Fold;
    RecipientsSplit();
    InDomainX();
    var ls := [SENT, ACCEPTED, DELIVERED];
    assert ls[..2] == [SENT, ACCEPTED] && [SENT, ACCEPTED][..1] == [SENT];
    var s0 := Init({"x"}, SENT);
    assert s0.flag == [C0, C0, C0, C0, C0, C0, C0, C0] && s0.recs == [NO_RECEIPTS, NO_RECEIPTS];
    assert s0.domini == [true, true];
    var s1 := Run({"x"}, [SENT]);
    assert s1 == s0.(flag := [C1, C0, C0, C1, C0, C0, C0, C0]);
    var s2 := Run({"x"}, [SENT, ACCEPTED]);
    assert s2 == s0.(flag := [C1, C0, C1, C1, C0, C0, C0, C0]);
    assert Named(DELIVERED) == ["b@x"] && ["b@x"][..0] == [];
    assert Find(s0.addrs, "b@x") == 0;
    assert Receipts(s2, DELIVERED, []) == s2;
    assert Receipts(s2, DELIVERED, ["b@x"]) == s2.(recs := [NO_RECEIPTS.(avvenuta := C1), NO_RECEIPTS]);
  }

  lemma {:induction false} RecipientsSplit()
    ensures Addrs(RECIPIENTS) == ["b@x", "c@x"] && Certs(RECIPIENTS) == [true, true]
  {
    var r := RECIPIENTS;
    assert r[..3][..2] == r[..2] && r[..2][..1] == r[..1] && r[..1][..0] == [];
    assert Certified("(certificato)") && !Remark("b@x") && !Remark("c@x");
    assert Addrs(r[..1]) == ["b@x"] && Certs(r[..1]) == [false];
    assert Addrs(r[..2]) == ["b@x"] && Certs(r[..2]) == [true];
    assert Addrs(r[..3]) == ["b@x", "c@x"] && Certs(r[..3]) == [true, false];
  }

  lemma InDomainX()
    ensures IsDomain({"x"}, "a@x") && IsDomain({"x"}, "b@x") && IsDomain({"x"}, "c@x")
  {
    assert Fold("x") == "x";
    assert "a@x"[1] == '@' && "b@x"[1] == '@' && "c@x"[1] == '@';
    assert Domain("a@x") == Domain("a@x"[1..]) == "x";
    assert Domain("b@x") == Domain("b@x"[1..]) == "x";
    assert Domain("c@x") == Domain("c@x"[1..]) == "x";
  }

  // The recipient loop

  /** The texts that are printed once only, and whether they have been. */
  datatype Once = Once(presaMancante: bool, presaDuplicata: bool, consegnaMancante: bool, consegnaDuplicata: bool)

  /** In front of recipient i. */
  predicate OnceAt(s: State, i: nat, o: Once)
    requires Shaped(s) && i <= |s.addrs|
  {
    && o.presaMancante == SaidBefore(s, PresaInCaricoMancante, i)
    && o.presaDuplicata == SaidBefore(s, PresaInCaricoDuplicata, i)
    && o.consegnaMancante == SaidBefore(s, ConsegnaMancante, i)
    && o.consegnaDuplicata == ManyBefore(s, i)
  }

  /** The texts behind the recipient loop. */
  predicate Final(e: Exception) {
    e.PresaInCaricoIncoerente? || e.RilevazioneVirusIncoerente? || e.ConsegnaIncoerente?
  }

  /** lines are the texts of the loop that recipient i gives reason for, but for those already printed. */
  ghost predicate TurnOf(s: State, i: nat, lines: seq<Exception>)
    requires Shaped(s) && i < |s.addrs|
  {
    && (forall e :: e in lines ==> !Final(e) && Says(s, e, i))
    && (forall e :: !Final(e) && Says(s, e, i) ==> e in lines || SaidBefore(s, e, i))
  }

  /** The three flags behind the loop, in front of recipient i. */
  predicate StraysAt(s: State, i: nat, flag: seq<schar>)
    requires Shaped(s) && i <= |s.addrs| && |flag| == 8
  {
    && (flag[PRESA_IN_CARICO] != C0 <==> s.flag[PRESA_IN_CARICO] != C0 || SaidBefore(s, PresaInCaricoIncoerente, i))
    && (flag[RILEVAZIONE_VIRUS] != C0 <==>
         s.flag[RILEVAZIONE_VIRUS] != C0 || SaidBefore(s, RilevazioneVirusIncoerente, i))
    && (flag[CONSEGNA] != C0 <==> s.flag[CONSEGNA] != C0 || SaidBefore(s, ConsegnaIncoerente, i))
  }

  /** What has been printed in front of recipient i. */
  ghost predicate OutAt(s: State, i: nat, out: seq<Exception>)
    requires Shaped(s) && i <= |s.addrs|
  {
    forall e :: e in out <==> !Final(e) && (FlagsSay(s, e) || SaidBefore(s, e, i))
  }

  lemma SaidNext(s: State, e: Exception, i: nat)
    requires Shaped(s) && i < |s.addrs|
    ensures SaidBefore(s, e, i + 1) <==> SaidBefore(s, e, i) || Says(s, e, i)
  {
    hide Says;
  }

  lemma ManyNext(s: State, i: nat)
    requires Shaped(s) && i < |s.addrs|
    ensures ManyBefore(s, i + 1) <==> ManyBefore(s, i) || Many(s, i)
  {
    hide Many;
  }

  lemma {:induction false} OutNext(s: State, i: nat, out: seq<Exception>, lines: seq<Exception>)
    requires Shaped(s) && i < |s.addrs| && OutAt(s, i, out) && TurnOf(s, i, lines)
    ensures OutAt(s, i + 1, out + lines)
  {
    hide Says, SaidBefore, FlagsSay, Final;
    forall e ensures SaidBefore(s, e, i + 1) <==> SaidBefore(s, e, i) || Says(s, e, i) { SaidNext(s, e, i); }
  }

  /** Whether recipient i is skipped, in terms of the texts printed so far. */
  lemma SkippedIs(s: State, i: nat)
    requires Shaped(s) && i < |s.addrs|
    ensures Skipped(s, i) <==> (Lacks(s, i) && SaidBefore(s, PresaInCaricoMancante, i)) ||
                               (Doubles(s, i) && SaidBefore(s, PresaInCaricoDuplicata, i))
  {
    assert forall j :: 0 <= j < i ==> Says(s, PresaInCaricoMancante, j) == Lacks(s, j);
    assert forall j :: 0 <= j < i ==> Says(s, PresaInCaricoDuplicata, j) == Doubles(s, j);
    hide Lacks, Doubles, Says;
  }
}
