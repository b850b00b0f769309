/** The `Messaggio` object: fed line by line, judged by `isAnomalia`, printed by `reportAnomalie`. */
module PecMessage {
  import opened PecModel
  import opened PecTexts

  class Messaggio {
    const domains: set<string>
    const identifier: string
    const destinatari: seq<string>
    const vdestinatari: seq<string>
    const certificati: seq<bool>
    const domini: seq<bool>
    var mittente: string
    var flag: seq<schar>
    var recs: seq<Counters>

    function Snapshot(): State
      reads this
    {
      State(mittente, destinatari, flag, vdestinatari, certificati, domini, recs)
    }

    predicate Valid()
      reads this
    {
      Shaped(Snapshot())
    }

    /** The constructor: splits the recipient list into addresses and marks. */
    constructor (domains: set<string>, l: Line)
      requires WellFormed(l)
      ensures this.domains == domains && identifier == l.id
      ensures Valid() && Snapshot() == Init(domains, l)
    {
      this.domains, identifier, mittente, destinatari := domains, l.id, l.sender, l.recipients;
      flag := seq(8, _ => C0);
      var addrs, certs := SplitRecipients(l.recipients);
      vdestinatari, certificati := addrs, certs;
      domini := Domini(domains, addrs);
      recs := seq(|addrs|, _ => NO_RECEIPTS);
    }

    /** `setRicezione` for one address of a take-over or of an older virus detection. */
    method SetRicezione(l: Line, elem: string)
      requires Valid() && (l.kind.PresaInCarico? || l.kind.RilevazioneVirus?)
      modifies this`flag, this`recs
      ensures Valid() && Snapshot() == Receipt(old(Snapshot()), l, elem)
    {
      var i := FindRecipient(elem);
      if i == |vdestinatari| || !certificati[i] {
        if l.kind.PresaInCarico? {
          flag := flag[PRESA_IN_CARICO := C1];
        } else {
          flag := flag[RILEVAZIONE_VIRUS := C1];
        }
      } else if l.kind.PresaInCarico? {
        recs := recs[i := recs[i].(presa := Inc(recs[i].presa))];
      } else {
        recs := recs[i := recs[i].(virus := Inc(recs[i].virus))];
      }
    }

    /** `setConsegna` for one address of a delivery, a failure or a virus detection. */
    method SetConsegna(l: Line, elem: string)
      requires Valid() && (l.kind.ErroreConsegna? || l.kind.AvvenutaConsegna? || l.kind.RilevazioneVirus?)
      modifies this`flag, this`recs
      ensures Valid() && Snapshot() == Receipt(old(Snapshot()), l, elem)
    {
      var i := FindRecipient(elem);
      if i == |vdestinatari| || !certificati[i] {
        if l.kind.ErroreConsegna? || l.kind.AvvenutaConsegna? {
          flag := flag[CONSEGNA := C1];
        } else {
          flag := flag[RILEVAZIONE_VIRUS := C1];
        }
      } else if l.kind.ErroreConsegna? {
        recs := recs[i := recs[i].(mancata := Inc(recs[i].mancata))];
        if l.virusError {
          recs := recs[i := recs[i].(mancataVirus := Inc(recs[i].mancataVirus))];
        }
      } else if l.kind.AvvenutaConsegna? {
        recs := recs[i := recs[i].(avvenuta := Inc(recs[i].avvenuta))];
      } else {
        recs := recs[i := recs[i].(virus := Inc(recs[i].virus))];
      }
    }

    /** The first recipient equal to the address ignoring case. */
    method FindRecipient(elem: string) returns (i: nat)
      ensures i == Find(vdestinatari, elem)
    {
      i := 0;
      while i < |vdestinatari| && Fold(vdestinatari[i]) != Fold(elem)
        invariant i <= |vdestinatari|
        invariant Find(vdestinatari, elem) == i + Find(vdestinatari[i..], elem)
      {
        i := i + 1;
      }
    }

    /** `callForAllEntryField`: every address of a field, remarks skipped. */
    method CallForAll(l: Line, tokens: seq<string>, consegna: bool)
      requires Valid()
      requires if consegna then l.kind.ErroreConsegna? || l.kind.AvvenutaConsegna? || l.kind.RilevazioneVirus?
               else l.kind.PresaInCarico? || l.kind.RilevazioneVirus?
      modifies this`flag, this`recs
      ensures Valid() && Snapshot() == Receipts(old(Snapshot()), l, tokens)
    {
      hide Receipt;
      for i := 0 to |tokens|
        invariant Valid() && Snapshot() == Receipts(old(Snapshot()), l, tokens[..i])
      {
        assert tokens[..i + 1][..i] == tokens[..i];
        if !Remark(tokens[i]) {
          if consegna {
            SetConsegna(l, tokens[i]);
          } else {
            SetRicezione(l, tokens[i]);
          }
        }
      }
      assert tokens[..|tokens|] == tokens;
    }

    /** `processLine`. */
    method ProcessLine(l: Line, bnew: bool)
      requires Valid()
      modifies this`mittente, this`flag, this`recs
      ensures Valid()
      ensures Snapshot() == if bnew then Apply(domains, old(Snapshot()), l) else Process(domains, old(Snapshot()), l)
    {
      hide Fold, FoldAll, IsDomain;
      if !bnew {
        if flag[MITTENTE_CHANGE] == C1 || flag[DESTINATARI_CHANGE] == C1 { return; }
        if Fold(l.sender) != Fold(mittente) {
          flag := flag[MITTENTE_CHANGE := C1];
          if l.kind.PostaCertificata? {
            mittente := l.sender;
          }
          return;
        }
        if FoldAll(l.recipients) != FoldAll(destinatari) {
          flag := flag[DESTINATARI_CHANGE := C1];
          return;
        }
      }
      if l.kind.PostaCertificata? {
        flag := flag[BUSTA_TRASPORTO := Inc(flag[BUSTA_TRASPORTO])];
        if IsDomain(domains, mittente) {
          flag := flag[OUTPUT := C1];
        }
      } else if l.kind.Accettazione? {
        flag := flag[ACCETTAZIONE := Inc(flag[ACCETTAZIONE])];
      } else if l.kind.PresaInCarico? {
        CallForAll(l, l.ricezione, false);
      } else if l.kind.ErroreConsegna? {
        CallForAll(l, l.consegna, true);
      } else if l.kind.AvvenutaConsegna? {
        CallForAll(l, l.consegna, true);
      } else if l.kind.RilevazioneVirus? {
        if l.consegna == [] {
          CallForAll(l, l.ricezione, false);
        } else {
          CallForAll(l, l.consegna, true);
        }
      }
    }

    /** `isAnomalia`. */
    method IsAnomalia() returns (anomalia: bool)
      requires Valid()
      modifies this`flag
      ensures Valid() && Snapshot() == Settle(domains, old(Snapshot()))
      ensures anomalia == Anomalous(Snapshot())
    {
      hide IsDomain;
      if flag[BUSTA_TRASPORTO] == C0 {
        if IsDomain(domains, mittente) {
          flag := flag[OUTPUT := C1];
        }
      }
      if flag[MITTENTE_CHANGE] == C1 || flag[DESTINATARI_CHANGE] == C1 || flag[BUSTA_TRASPORTO] != C1 ||
         flag[CONSEGNA] != C0 || flag[PRESA_IN_CARICO] != C0 || flag[RILEVAZIONE_VIRUS] != C0 ||
         flag[OUTPUT] != flag[ACCETTAZIONE]
      {
        return true;
      }
      for i := 0 to |vdestinatari|
        invariant Valid() && Snapshot() == Settle(domains, old(Snapshot())) && !BadFlags(Snapshot())
        invariant forall j :: 0 <= j < i ==> !BadRecipient(Snapshot(), j)
      {
        var bad := CheckRecipient(i);
        if bad { return true; }
      }
      return false;
    }

    /** The body of the recipient loop of `isAnomalia`. */
    method CheckRecipient(i: nat) returns (bad: bool)
      requires Valid() && i < |vdestinatari|
      ensures bad == BadRecipient(Snapshot(), i)
    {
      var c := recs[i];
      if flag[OUTPUT] == C1 && c.virus != c.mancataVirus { return true; }
      if !certificati[i] {
        if c.presa != C0 || c.mancata != C0 || c.avvenuta != C0 || c.virus != C0 { return true; }
      } else if flag[OUTPUT] == C1 {
        if c.presa != C1 || (c.mancata - 48) + (c.avvenuta - 48) != 1 { return true; }
      } else if domini[i] {
        if c.presa != C1 { return true; }
        if (c.mancata - 48) + (c.avvenuta - 48) + (c.virus - 48) != 1 { return true; }
      } else {
        if c.presa != C0 || c.mancata != C0 || c.avvenuta != C0 || c.virus != C0 { return true; }
      }
      return false;
    }

    /** The recipient part of `reportAnomalie`: the virus comparison of a sent message. */
    method ReportVirus(i: nat) returns (lines: seq<Exception>)
      requires Valid() && i < |vdestinatari|
      ensures forall e :: e in lines <==> AboutVirus(e) && Says(Snapshot(), e, i)
    {
      var c := recs[i];
      if flag[OUTPUT] == C1 && c.virus != c.mancataVirus {
        if c.virus == C0 {
          return [RilevazioneVirusMancante];
        } else if c.mancataVirus == C0 {
          return [MancataConsegnaVirusMancante];
        } else if c.virus > c.mancataVirus {
          return [RilevazioneVirusDuplicata];
        } else {
          return [MancataConsegnaVirusDuplicata];
        }
      }
      return [];
    }

    /** The recipient part for an owed recipient: each of four texts is printed for one recipient only,
        and a text that is left out ends the work on its recipient. */
    method ReportOwed(i: nat, once: Once) returns (lines: seq<Exception>, once': Once)
      requires Valid() && i < |vdestinatari| && Owed(Snapshot(), i) && OnceAt(Snapshot(), i, once)
      ensures forall e :: e in lines ==> OnceOnly(e) && Says(Snapshot(), e, i)
      ensures forall e :: OnceOnly(e) && Says(Snapshot(), e, i) ==> e in lines || SaidBefore(Snapshot(), e, i)
      ensures OnceAt(Snapshot(), i + 1, once')
    {
      hide SaidBefore, ManyBefore, Skipped;
      ghost var s := Snapshot();
      SkippedIs(s, i);
      SaidNext(s, PresaInCaricoMancante, i);
      SaidNext(s, PresaInCaricoDuplicata, i);
      SaidNext(s, ConsegnaMancante, i);
      ManyNext(s, i);
      lines, once' := [], once;
      var c := recs[i];
      if c.presa != C1 {
        if c.presa == C0 {
          if once.presaMancante { return; }
          once' := once'.(presaMancante := true);
          lines := [PresaInCaricoMancante];
        } else {
          if once.presaDuplicata { return; }
          once' := once'.(presaDuplicata := true);
          lines := [PresaInCaricoDuplicata];
        }
      }
      var numConsegne := (c.mancata - 48) + (c.avvenuta - 48) + if flag[OUTPUT] == C1 then 0 else c.virus - 48;
      assert numConsegne == Deliveries(s, i);
      if numConsegne != 1 {
        if numConsegne == 0 {
          if once.consegnaMancante { return; }
          once' := once'.(consegnaMancante := true);
          lines := lines + [ConsegnaMancante];
        } else {
          if once.consegnaDuplicata { return; }
          once' := once'.(consegnaDuplicata := true);
          lines := lines + [if c.mancata != C0 && c.avvenuta != C0 && (flag[OUTPUT] == C1 || c.virus != C0)
                            then ConsegnaInConflitto else ConsegnaDuplicata];
        }
      }
    }

    /** The recipient part for anyone else: receipts raise the flags of the last three texts. */
    method ReportNotOwed(i: nat)
      requires Valid() && i < |vdestinatari|
      modifies this`flag
      ensures Valid() && SameButStrays(old(Snapshot()), Snapshot())
      ensures flag[PRESA_IN_CARICO] == if recs[i].presa != C0 then C1 else old(flag)[PRESA_IN_CARICO]
      ensures flag[RILEVAZIONE_VIRUS] == if recs[i].virus != C0 then C1 else old(flag)[RILEVAZIONE_VIRUS]
      ensures flag[CONSEGNA] == if recs[i].mancata != C0 || recs[i].avvenuta != C0 then C1 else old(flag)[CONSEGNA]
    {
      if recs[i].presa != C0 { flag := flag[PRESA_IN_CARICO := C1]; }
      if recs[i].virus != C0 { flag := flag[RILEVAZIONE_VIRUS := C1]; }
      if recs[i].mancata != C0 || recs[i].avvenuta != C0 { flag := flag[CONSEGNA := C1]; }
    }

    /** One turn of the recipient loop of `reportAnomalie`. */
    method ReportRecipient(i: nat, once: Once, ghost s: State) returns (lines: seq<Exception>, once': Once)
      requires Valid() && i < |vdestinatari| && Shaped(s) && SameButStrays(s, Snapshot())
      requires OnceAt(s, i, once) && StraysAt(s, i, flag)
      modifies this`flag
      ensures Valid() && SameButStrays(s, Snapshot())
      ensures TurnOf(s, i, lines) && OnceAt(s, i + 1, once') && StraysAt(s, i + 1, flag)
    {
      hide Says, SaidBefore, OnceAt;
      ghost var r := Snapshot();
      SameSays(s, r, i);
      var virus := ReportVirus(i);
      var more := [];
      once' := once;
      if certificati[i] && (flag[OUTPUT] == C1 || domini[i]) {
        SameOnce(s, r, i, once);
        more, once' := ReportOwed(i, once);
        SameOnce(s, r, i + 1, once');
        OwedSays(s, i);
      } else {
        ReportNotOwed(i);
        NotOwedSays(s, i, once);
      }
      lines := virus + more;
      StraysNext(s, i);
      LoopTexts(s, i);
    }

    /** `reportAnomalie`: prints exactly the texts that the state gives reason for, and one at least
        exactly if the message is anomalous. */
    method Report() returns (out: seq<Exception>)
      requires Valid()
      modifies this`flag
      ensures Valid()
      ensures forall e :: e in out <==> Printed(old(Snapshot()), e)
      ensures out != [] <==> Anomalous(old(Snapshot()))
    {
      hide Says, SaidBefore, OnceAt, StraysAt, TurnOf, Anomalous, FlagsSay, Final;
      ghost var s := Snapshot();
      PrintedAnomalous(s);
      out := ReportFlags();
      if flag[MITTENTE_CHANGE] == C1 || flag[DESTINATARI_CHANGE] == C1 {
        ChangedSays(s);
        SomeText(s, out);
        return;
      }
      var once := Once(false, false, false, false);
      LoopStart(s, out, once);
      for i := 0 to |vdestinatari|
        invariant Valid() && SameButStrays(s, Snapshot())
        invariant OutAt(s, i, out) && OnceAt(s, i, once) && StraysAt(s, i, flag)
      {
        var lines;
        lines, once := ReportRecipient(i, once, s);
        OutNext(s, i, out, lines);
        out := out + lines;
      }
      LoopEnd(s, out, flag);
      if flag[PRESA_IN_CARICO] != C0 { out := out + [PresaInCaricoIncoerente]; }
      if flag[RILEVAZIONE_VIRUS] != C0 { out := out + [RilevazioneVirusIncoerente]; }
      if flag[CONSEGNA] != C0 { out := out + [ConsegnaIncoerente]; }
      SomeText(s, out);
    }

    /** The part of `reportAnomalie` in front of the recipient loop. */
    method ReportFlags() returns (out: seq<Exception>)
      requires Valid()
      ensures forall e :: e in out <==> !Final(e) && FlagsSay(Snapshot(), e)
    {
      out := [];
      if flag[MITTENTE_CHANGE] == C1 { out := out + [MittenteIncoerente]; }
      if flag[DESTINATARI_CHANGE] == C1 { out := out + [DestinatariIncoerenti]; }
      if flag[MITTENTE_CHANGE] == C1 || flag[DESTINATARI_CHANGE] == C1 { return; }
      if flag[BUSTA_TRASPORTO] != C1 {
        out := out + [if flag[BUSTA_TRASPORTO] == C0 then BustaMancante else BustaDuplicata];
      }
      if flag[OUTPUT] != flag[ACCETTAZIONE] {
        if flag[ACCETTAZIONE] == C0 {
          out := out + [AccettazioneMancante];
        } else if flag[ACCETTAZIONE] == C1 {
          out := out + [AccettazioneIncoerente];
        } else {
          out := out + [AccettazioneDuplicata];
        }
      }
    }
  }

  /** The report changes nothing but the three stray flags. */
  ghost predicate SameButStrays(s: State, r: State)
    requires Shaped(s) && Shaped(r)
  {
    && r.(flag := s.flag) == s
    && forall k :: 0 <= k < 8 && k !in {PRESA_IN_CARICO, RILEVAZIONE_VIRUS, CONSEGNA} ==> r.flag[k] == s.flag[k]
  }

  predicate AboutVirus(e: Exception) {
    e.RilevazioneVirusMancante? || e.MancataConsegnaVirusMancante? || e.RilevazioneVirusDuplicata? ||
      e.MancataConsegnaVirusDuplicata?
  }

  predicate OnceOnly(e: Exception) {
    e.PresaInCaricoMancante? || e.PresaInCaricoDuplicata? || e.ConsegnaMancante? || e.ConsegnaDuplicata? ||
      e.ConsegnaInConflitto?
  }

  /** The stray flags give no reason for the texts of the loop. */
  lemma {:induction false} SameSays(s: State, r: State, i: nat)
    requires Shaped(s) && Shaped(r) && SameButStrays(s, r) && i < |s.addrs|
    ensures Owed(s, i) == Owed(r, i)
    ensures forall e :: Says(s, e, i) == Says(r, e, i)
    ensures forall e :: SaidBefore(s, e, i) == SaidBefore(r, e, i)
  {
    hide Says, SaidBefore;
    SaysSame(s, r, i);
    forall e ensures SaidBefore(s, e, i) == SaidBefore(r, e, i) { SaidSame(s, r, e, i); }
  }

  lemma {:induction false} SaidSame(s: State, r: State, e: Exception, i: nat)
    requires Shaped(s) && Shaped(r) && SameButStrays(s, r) && i <= |s.addrs|
    ensures SaidBefore(s, e, i) == SaidBefore(r, e, i)
  {
    hide Says;
    forall j | 0 <= j < i ensures Says(s, e, j) == Says(r, e, j) { SaysSame(s, r, j); }
  }

  lemma {:induction false} SameOnce(s: State, r: State, i: nat, once: Once)
    requires Shaped(s) && Shaped(r) && SameButStrays(s, r) && i <= |s.addrs|
    ensures OnceAt(s, i, once) == OnceAt(r, i, once)
  {
    hide SaidBefore, Many;
    SaidSame(s, r, PresaInCaricoMancante, i);
    SaidSame(s, r, PresaInCaricoDuplicata, i);
    SaidSame(s, r, ConsegnaMancante, i);
    forall j | 0 <= j < i ensures Many(s, j) == Many(r, j) { SaysSame(s, r, j); }
  }

  lemma {:induction false} SaysSame(s: State, r: State, i: nat)
    requires Shaped(s) && Shaped(r) && i < |s.addrs| && s.recs == r.recs && s.addrs == r.addrs
    requires s.certs == r.certs && s.domini == r.domini && s.flag[OUTPUT] == r.flag[OUTPUT]
    ensures Many(s, i) == Many(r, i) && forall e :: Says(s, e, i) == Says(r, e, i)
  {
    forall j | 0 <= j < |s.addrs|
      ensures Lacks(s, j) == Lacks(r, j) && Doubles(s, j) == Doubles(r, j) && Skipped(s, j) == Skipped(r, j) &&
              Many(s, j) == Many(r, j)
    {
      SkippedSame(s, r, j);
    }
    hide Lacks, Doubles, Skipped, Many;
    assert ManyBefore(s, i) == ManyBefore(r, i);
    hide ManyBefore;
  }

  lemma {:induction false} SkippedSame(s: State, r: State, i: nat)
    requires Shaped(s) && Shaped(r) && i < |s.addrs| && s.recs == r.recs && s.addrs == r.addrs
    requires s.certs == r.certs && s.domini == r.domini && s.flag[OUTPUT] == r.flag[OUTPUT]
    ensures Lacks(s, i) == Lacks(r, i) && Doubles(s, i) == Doubles(r, i) && Skipped(s, i) == Skipped(r, i) &&
            Many(s, i) == Many(r, i)
  {
    assert forall j :: 0 <= j < |s.addrs| ==> Lacks(s, j) == Lacks(r, j) && Doubles(s, j) == Doubles(r, j);
  }

  /** Every text of the loop is about viruses or printed once only. */
  lemma LoopTexts(s: State, i: nat)
    requires Shaped(s) && i < |s.addrs|
    ensures forall e :: Says(s, e, i) ==> AboutVirus(e) || OnceOnly(e) || Final(e)
  {
    hide Many, ManyBefore, Skipped, Conflict;
  }

  lemma OwedSays(s: State, i: nat)
    requires Shaped(s) && i < |s.addrs| && Owed(s, i)
    ensures forall e :: Final(e) ==> !Says(s, e, i)
  {
    hide Many, ManyBefore, Skipped, Conflict;
  }

  lemma NotOwedSays(s: State, i: nat, once: Once)
    requires Shaped(s) && i < |s.addrs| && !Owed(s, i) && OnceAt(s, i, once)
    ensures forall e :: OnceOnly(e) ==> !Says(s, e, i)
    ensures Says(s, PresaInCaricoIncoerente, i) <==> s.recs[i].presa != C0
    ensures Says(s, RilevazioneVirusIncoerente, i) <==> s.recs[i].virus != C0
    ensures Says(s, ConsegnaIncoerente, i) <==> s.recs[i].mancata != C0 || s.recs[i].avvenuta != C0
    ensures OnceAt(s, i + 1, once)
  {
    hide SaidBefore, ManyBefore;
    SaidNext(s, PresaInCaricoMancante, i);
    SaidNext(s, PresaInCaricoDuplicata, i);
    SaidNext(s, ConsegnaMancante, i);
    ManyNext(s, i);
  }

  lemma StraysNext(s: State, i: nat)
    requires Shaped(s) && i < |s.addrs|
    ensures forall e :: SaidBefore(s, e, i + 1) <==> SaidBefore(s, e, i) || Says(s, e, i)
  {
    forall e ensures SaidBefore(s, e, i + 1) <==> SaidBefore(s, e, i) || Says(s, e, i) { SaidNext(s, e, i); }
  }

  lemma LoopStart(s: State, out: seq<Exception>, once: Once)
    requires Shaped(s) && once == Once(false, false, false, false)
    requires forall e :: e in out <==> !Final(e) && FlagsSay(s, e)
    ensures OutAt(s, 0, out) && OnceAt(s, 0, once) && StraysAt(s, 0, s.flag)
  {
    hide Says, FlagsSay, Final;
  }

  lemma LoopEnd(s: State, out: seq<Exception>, flag: seq<schar>)
    requires Shaped(s) && |flag| == 8 && !Changed(s) && OutAt(s, |s.addrs|, out) && StraysAt(s, |s.addrs|, flag)
    ensures forall e :: !Final(e) ==> (e in out <==> Printed(s, e))
    ensures forall e :: e in out ==> !Final(e)
    ensures Printed(s, PresaInCaricoIncoerente) <==> flag[PRESA_IN_CARICO] != C0
    ensures Printed(s, RilevazioneVirusIncoerente) <==> flag[RILEVAZIONE_VIRUS] != C0
    ensures Printed(s, ConsegnaIncoerente) <==> flag[CONSEGNA] != C0
    ensures forall e :: Final(e) ==> e in {PresaInCaricoIncoerente, RilevazioneVirusIncoerente, ConsegnaIncoerente}
  {
    hide SaidBefore;
  }

  lemma ChangedSays(s: State)
    requires Shaped(s) && Changed(s)
    ensures forall e :: Final(e) ==> !FlagsSay(s, e)
    ensures forall e :: Printed(s, e) <==> FlagsSay(s, e)
  {
  }

  lemma SomeText(s: State, out: seq<Exception>)
    requires Shaped(s) && forall e :: e in out <==> Printed(s, e)
    ensures out != [] <==> exists e :: Printed(s, e)
  {
    hide Printed;
    if out != [] {
      assert out[0] in out;
    }
  }

  /** The loop of the constructor over the tokens of the recipient field. */
  method SplitRecipients(tokens: seq<string>) returns (addrs: seq<string>, certs: seq<bool>)
    requires MarksBehind(tokens)
    ensures addrs == Addrs(tokens) && certs == Certs(tokens)
  {
    addrs, certs := [], [];
    for i := 0 to |tokens|
      invariant addrs == Addrs(tokens[..i]) && certs == Certs(tokens[..i])
    {
      assert tokens[..i + 1][..i] == tokens[..i];
      if Remark(tokens[i]) {
        if Certified(tokens[i]) {
          certs := certs[|addrs| - 1 := true];
        }
      } else {
        addrs, certs := addrs + [tokens[i]], certs + [false];
      }
    }
    assert tokens[..|tokens|] == tokens;
  }
}
