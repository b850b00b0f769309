/** Certified-mail log lines and the state a message accumulates from them
    (examples/PEC_log/PEC_report_anomalie.cpp). Counters and flags are C chars that
    start at '0' and wrap around at eight bits. */
module PecModel {

  // Text

  function Lower(c: char): char {
    if 'A' <= c <= 'Z' then c - 'A' + 'a' else c
  }

  /** Text without its case. Two texts are equal ignoring case exactly when these are equal. */
  function Fold(s: string): (f: string)
    ensures |f| == |s|
  {
    seq(|s|, i requires 0 <= i < |s| => Lower(s[i]))
  }

  function FoldAll(ss: seq<string>): (fs: seq<string>)
    ensures |fs| == |ss|
  {
    seq(|ss|, i requires 0 <= i < |ss| => Fold(ss[i]))
  }

  /** The letters are the same but for their case. */
  predicate SameLetter(c: char, d: char) {
    || c == d
    || ('A' <= c <= 'Z' && d as int == c as int + 32)
    || ('A' <= d <= 'Z' && c as int == d as int + 32)
  }

  /** What it means for texts to be equal ignoring case. */
  lemma {:induction false} FoldExactly(a: string, b: string)
    ensures Fold(a) == Fold(b) <==> |a| == |b| && forall i :: 0 <= i < |a| ==> SameLetter(a[i], b[i])
  {
    if Fold(a) == Fold(b) {
      assert |a| == |Fold(a)| == |b|;
      assert forall i :: 0 <= i < |a| ==> Fold(a)[i] == Lower(a[i]) && Fold(b)[i] == Lower(b[i]);
    }
    if |a| == |b| && forall i :: 0 <= i < |a| ==> SameLetter(a[i], b[i]) {
      assert forall i :: 0 <= i < |a| ==> Lower(a[i]) == Lower(b[i]);
    }
  }

  /** What follows the first '@', if there is one. */
  function Domain(address: string): string {
    if address == [] then "" else if address[0] == '@' then address[1..] else Domain(address[1..])
  }

  /** `isDomainAddress`: the address is of one of the given domains, ignoring case. */
  predicate IsDomain(domains: set<string>, address: string) {
    '@' in address && Fold(Domain(address)) in domains
  }

  /** The domain of an address is what is behind its first '@'; without one it is of no domain. */
  lemma {:induction false} DomainExactly(domains: set<string>, user: string, domain: string)
    requires '@' !in user
    ensures IsDomain(domains, user + "@" + domain) <==> Fold(domain) in domains
    ensures !IsDomain(domains, user)
  {
    hide Fold;
    assert (user + "@" + domain)[|user|] == '@';
    DomainBehind(user, domain);
  }

  lemma {:induction false} DomainBehind(user: string, domain: string)
    requires '@' !in user
    ensures Domain(user + "@" + domain) == domain
  {
    var a := user + "@" + domain;
    if user == [] {
      assert a[0] == '@' && a[1..] == domain;
    } else {
      assert a[0] == user[0] && a[1..] == user[1..] + "@" + domain;
      DomainBehind(user[1..], domain);
    }
  }

  /** A parenthesized remark behind an address. */
  predicate Remark(token: string) {
    token != [] && token[0] == '('
  }

  predicate Certified(token: string) {
    "(certificato" <= token
  }

  // Lines

  datatype Kind =
    | Accettazione
    | NonAccettazione
    | AvvenutaConsegna
    | RilevazioneVirus
    | PostaCertificata
    | ErroreConsegna
    | PresaInCarico
    | PreavvisoErroreConsegna
    | BustaAnomalia

  /** A parsed log line. Fields with several addresses are lists of the tokens between ", ". */
  datatype Line = Line(id: string, sender: string, recipients: seq<string>, kind: Kind,
                       ricezione: seq<string>, consegna: seq<string>, virusError: bool)

  /** `checkLineForAnomalie`. */
  predicate Tracked(l: Line) {
    !l.kind.BustaAnomalia? && !l.kind.NonAccettazione?
  }

  /** Every certified mark has an address somewhere in front of it. */
  predicate MarksBehind(tokens: seq<string>) {
    forall i :: 0 <= i < |tokens| && Certified(tokens[i]) ==> Addrs(tokens[..i]) != []
  }

  /** The line can begin a message: the marks of its recipients stay inside the array of marks. */
  predicate WellFormed(l: Line) { MarksBehind(l.recipients) }

  // C chars

  type schar = c: int | -128 <= c < 128

  const C0: schar := 48
  const C1: schar := 49

  function Inc(c: schar): schar {
    if c == 127 then -128 else c + 1
  }

  /** The char that n increments make of '0'. */
  function CharOf(n: nat): (c: schar)
    ensures n < 80 ==> c == 48 + n
  {
    (n + 176) % 256 - 128
  }

  lemma CharOfNext(n: nat)
    ensures CharOf(n + 1) == Inc(CharOf(n))
  {
  }

  /** Chars repeat after 256 increments, and only then. */
  lemma CharOfEqual(m: nat, n: nat)
    ensures CharOf(m) == CharOf(n) <==> m % 256 == n % 256
  {
    assert CharOf(m) == CharOf(n) <==> (m + 176) % 256 == (n + 176) % 256;
  }

  // The state of a message

  const OUTPUT := 0
  const CONSEGNA := 1
  const ACCETTAZIONE := 2
  const BUSTA_TRASPORTO := 3
  const PRESA_IN_CARICO := 4
  const MITTENTE_CHANGE := 5
  const RILEVAZIONE_VIRUS := 6
  const DESTINATARI_CHANGE := 7

  datatype Counters = Counters(presa: schar, mancata: schar, avvenuta: schar, virus: schar, mancataVirus: schar)

  const NO_RECEIPTS := Counters(C0, C0, C0, C0, C0)

  datatype State = State(sender: string, destinatari: seq<string>, flag: seq<schar>,
                         addrs: seq<string>, certs: seq<bool>, domini: seq<bool>, recs: seq<Counters>)

  /** One set of counters and marks per recipient. */
  predicate Shaped(s: State) {
    |s.flag| == 8 && |s.certs| == |s.addrs| && |s.domini| == |s.addrs| && |s.recs| == |s.addrs|
  }

  /** The addresses of a recipient list, without the remarks. */
  function Addrs(tokens: seq<string>): (a: seq<string>)
    ensures |a| <= |tokens|
  {
    if tokens == [] then [] else
    var a, t := Addrs(tokens[..|tokens| - 1]), tokens[|tokens| - 1];
    if Remark(t) then a else a + [t]
  }

  /** Which of the addresses a remark marks as certified. */
  function Certs(tokens: seq<string>): (c: seq<bool>)
    ensures |c| == |Addrs(tokens)|
  {
    if tokens == [] then [] else
    var c, t := Certs(tokens[..|tokens| - 1]), tokens[|tokens| - 1];
    if !Remark(t) then c + [false]
    else if Certified(t) && c != [] then c[|c| - 1 := true]
    else c
  }

  /** The addresses are the tokens that are not in parentheses, in order. */
  lemma {:induction false} AddrsExactly(tokens: seq<string>, k: nat)
    requires k < |tokens|
    ensures var n := |Addrs(tokens[..k])|;
            if tokens[k] != [] && tokens[k][0] == '(' then |Addrs(tokens[..k + 1])| == n
            else |Addrs(tokens[..k + 1])| == n + 1 && n < |Addrs(tokens)| && Addrs(tokens)[n] == tokens[k]
  {
    var last := |tokens| - 1;
    if k < last {
      AddrsExactly(tokens[..last], k);
      assert tokens[..last][..k] == tokens[..k] && tokens[..last][..k + 1] == tokens[..k + 1];
    } else {
      assert tokens[..k + 1] == tokens;
    }
  }

  /** Token k is a mark behind address i and before the next address. */
  predicate Marks(tokens: seq<string>, k: nat, i: nat)
    requires k < |tokens|
  {
    "(certificato" <= tokens[k] && |Addrs(tokens[..k])| == i + 1
  }

  /** An address is certified exactly if such a mark comes behind it. */
  lemma {:induction false} CertsExactly(tokens: seq<string>, i: nat)
    requires i < |Addrs(tokens)|
    ensures Certs(tokens)[i] <==> exists k :: 0 <= k < |tokens| && Marks(tokens, k, i)
  {
    var last := |tokens| - 1;
    var front := tokens[..last];
    forall k | 0 <= k < last ensures Marks(tokens, k, i) == Marks(front, k, i) {
      assert front[..k] == tokens[..k];
    }
    if i < |Addrs(front)| {
      CertsExactly(front, i);
      LastMark(tokens, i);
    } else {
      forall k | 0 <= k < |tokens| ensures !Marks(tokens, k, i) {
        AddrsGrow(tokens, k, last);
      }
    }
  }

  lemma {:induction false} LastMark(tokens: seq<string>, i: nat)
    requires tokens != [] && i < |Addrs(tokens[..|tokens| - 1])|
    ensures i < |Addrs(tokens)|
    ensures Certs(tokens)[i] <==> Certs(tokens[..|tokens| - 1])[i] || Marks(tokens, |tokens| - 1, i)
  {
  }

  lemma {:induction false} AddrsGrow(tokens: seq<string>, k: nat, l: nat)
    requires k <= l <= |tokens|
    ensures |Addrs(tokens[..k])| <= |Addrs(tokens[..l])|
    decreases l
  {
    if k < l {
      AddrsGrow(tokens, k, l - 1);
      assert tokens[..l][..l - 1] == tokens[..l - 1];
    }
  }

  function Domini(domains: set<string>, addrs: seq<string>): (d: seq<bool>)
    ensures |d| == |addrs|
  {
    seq(|addrs|, i requires 0 <= i < |addrs| => IsDomain(domains, addrs[i]))
  }

  /** A new message, from its first line. */
  function Init(domains: set<string>, l: Line): (s: State)
    ensures Shaped(s)
  {
    var addrs := Addrs(l.recipients);
    State(l.sender, l.recipients, seq(8, _ => C0),
          addrs, Certs(l.recipients), Domini(domains, addrs), seq(|addrs|, _ => NO_RECEIPTS))
  }

  /** The first recipient equal to the address ignoring case; |addrs| if there is none. */
  function Find(addrs: seq<string>, elem: string): (i: nat)
    ensures i <= |addrs|
  {
    if addrs == [] then 0
    else if Fold(addrs[0]) == Fold(elem) then 0
    else 1 + Find(addrs[1..], elem)
  }

  lemma {:induction false} FindFirst(addrs: seq<string>, elem: string)
    ensures var i := Find(addrs, elem);
            && (i < |addrs| ==> Fold(addrs[i]) == Fold(elem))
            && forall j :: 0 <= j < i ==> Fold(addrs[j]) != Fold(elem)
  {
    if addrs != [] {
      FindFirst(addrs[1..], elem);
      assert forall j :: 0 < j < |addrs| ==> addrs[j] == addrs[1..][j - 1];
    }
  }

  /** The address is that of a certified recipient. */
  predicate Known(s: State, elem: string)
    requires Shaped(s)
  {
    var i := Find(s.addrs, elem);
    i < |s.addrs| && s.certs[i]
  }

  function Raise(s: State, f: nat): (r: State)
    requires Shaped(s) && f < 8
    ensures Shaped(r)
  {
    s.(flag := s.flag[f := C1])
  }

  function Bump(s: State, f: nat): (r: State)
    requires Shaped(s) && f < 8
    ensures Shaped(r)
  {
    s.(flag := s.flag[f := Inc(s.flag[f])])
  }

  /** One address of a receipt: counts for a certified recipient, raises a flag for anyone else. */
  function Receipt(s: State, l: Line, elem: string): (r: State)
    requires Shaped(s)
    ensures Shaped(r)
  {
    if !Known(s, elem) then Raise(s, StrayFlag(l.kind))
    else
      var i := Find(s.addrs, elem);
      s.(recs := s.recs[i := CountReceipt(s.recs[i], l)])
  }

  function StrayFlag(k: Kind): (f: nat)
    ensures f < 8
  {
    match k
    case PresaInCarico => PRESA_IN_CARICO
    case RilevazioneVirus => RILEVAZIONE_VIRUS
    case _ => CONSEGNA
  }

  function CountReceipt(c: Counters, l: Line): Counters {
    match l.kind
    case PresaInCarico => c.(presa := Inc(c.presa))
    case RilevazioneVirus => c.(virus := Inc(c.virus))
    case ErroreConsegna =>
      c.(mancata := Inc(c.mancata), mancataVirus := if l.virusError then Inc(c.mancataVirus) else c.mancataVirus)
    case AvvenutaConsegna => c.(avvenuta := Inc(c.avvenuta))
    case _ => c
  }

  /** The field whose addresses a receipt names; from version 2.1 on a virus detection has a consegna field. */
  function Named(l: Line): seq<string> {
    match l.kind
    case PresaInCarico => l.ricezione
    case ErroreConsegna => l.consegna
    case AvvenutaConsegna => l.consegna
    case RilevazioneVirus => if l.consegna == [] then l.ricezione else l.consegna
    case _ => []
  }

  function Receipts(s: State, l: Line, tokens: seq<string>): (r: State)
    requires Shaped(s)
    ensures Shaped(r)
  {
    if tokens == [] then s else
    var r, t := Receipts(s, l, tokens[..|tokens| - 1]), tokens[|tokens| - 1];
    if Remark(t) then r else Receipt(r, l, t)
  }

  /** The part of `processLine` behind the coherence checks. */
  function Apply(domains: set<string>, s: State, l: Line): (r: State)
    requires Shaped(s)
    ensures Shaped(r)
  {
    match l.kind
    case PostaCertificata =>
      var r := Bump(s, BUSTA_TRASPORTO);
      if IsDomain(domains, r.sender) then Raise(r, OUTPUT) else r
    case Accettazione => Bump(s, ACCETTAZIONE)
    case _ => Receipts(s, l, Named(l))
  }

  predicate Changed(s: State)
    requires Shaped(s)
  {
    s.flag[MITTENTE_CHANGE] == C1 || s.flag[DESTINATARI_CHANGE] == C1
  }

  /** `processLine` for a message that exists already. */
  function Process(domains: set<string>, s: State, l: Line): (r: State)
    requires Shaped(s)
    ensures Shaped(r)
  {
    if Changed(s) then s
    else if Fold(l.sender) != Fold(s.sender) then
      var r := Raise(s, MITTENTE_CHANGE);
      if l.kind.PostaCertificata? then r.(sender := l.sender) else r
    else if FoldAll(l.recipients) != FoldAll(s.destinatari) then Raise(s, DESTINATARI_CHANGE)
    else Apply(domains, s, l)
  }

  /** The state after all lines of one message. */
  function Run(domains: set<string>, ls: seq<Line>): (s: State)
    requires ls != []
    ensures Shaped(s)
  {
    var l := ls[|ls| - 1];
    if |ls| == 1 then Apply(domains, Init(domains, l), l)
    else Process(domains, Run(domains, ls[..|ls| - 1]), l)
  }

  // The verdict

  /** The first step of `isAnomalia`. */
  function Settle(domains: set<string>, s: State): (r: State)
    requires Shaped(s)
    ensures Shaped(r)
  {
    if s.flag[BUSTA_TRASPORTO] == C0 && IsDomain(domains, s.sender) then Raise(s, OUTPUT) else s
  }

  predicate SomeReceipt(c: Counters) {
    c.presa != C0 || c.mancata != C0 || c.avvenuta != C0 || c.virus != C0
  }

  /** What `isAnomalia` finds wrong with recipient i. */
  predicate BadRecipient(s: State, i: nat)
    requires Shaped(s) && i < |s.addrs|
  {
    var c, sent := s.recs[i], s.flag[OUTPUT] == C1;
    || (sent && c.virus != c.mancataVirus)
    || (if !s.certs[i] then SomeReceipt(c)
        else if sent then c.presa != C1 || (c.mancata - 48) + (c.avvenuta - 48) != 1
        else if s.domini[i] then c.presa != C1 || (c.mancata - 48) + (c.avvenuta - 48) + (c.virus - 48) != 1
        else SomeReceipt(c))
  }

  predicate BadFlags(s: State)
    requires Shaped(s)
  {
    || Changed(s)
    || s.flag[BUSTA_TRASPORTO] != C1
    || s.flag[CONSEGNA] != C0
    || s.flag[PRESA_IN_CARICO] != C0
    || s.flag[RILEVAZIONE_VIRUS] != C0
    || s.flag[OUTPUT] != s.flag[ACCETTAZIONE]
  }

  /** The verdict of `isAnomalia` on a settled state. */
  predicate Anomalous(s: State)
    requires Shaped(s)
  {
    BadFlags(s) || exists i :: 0 <= i < |s.addrs| && BadRecipient(s, i)
  }

  predicate Verdict(domains: set<string>, ls: seq<Line>)
    requires ls != []
  {
    Anomalous(Settle(domains, Run(domains, ls)))
  }
}
