/** The two report programs: a table of messages (PEC_report_anomalie1.cpp) and one message
    at a time over sorted input (PEC_report_anomalie2.cpp). */
module PecDrivers {
  import opened Wrappers
  import opened PecModel
  import opened PecTexts
  import opened PecMessage
  import opened PecReports

  /** The messages of `todo` are as before, the others are settled, and gone if they are normal. */
  ghost predicate Judging(domains: set<string>, before: map<string, State>, now: map<string, State>,
      todo: set<string>) {
    && (forall k :: k in before ==> Shaped(before[k]))
    && todo <= now.Keys <= before.Keys
    && (forall k :: k in todo ==> now[k] == before[k])
    && (forall k :: k in now && k !in todo ==> now[k] == Settle(domains, before[k]))
    && (forall k :: k in before && k !in todo ==> (k in now <==> Anomalous(Settle(domains, before[k]))))
  }

  lemma JudgingStart(domains: set<string>, before: map<string, State>)
    requires forall k :: k in before ==> Shaped(before[k])
    ensures Judging(domains, before, before, before.Keys)
  {
  }

  lemma {:induction false} JudgingStep(domains: set<string>, before: map<string, State>, now: map<string, State>,
      todo: set<string>, key: string)
    requires Judging(domains, before, now, todo) && key in todo
    ensures key in now && Shaped(now[key])
    ensures var s := Settle(domains, now[key]);
            Judging(domains, before, if Anomalous(s) then now[key := s] else now - {key}, todo - {key})
  {
    hide Settle, Anomalous, Shaped;
  }

  lemma JudgingEnd(domains: set<string>, before: map<string, State>, now: map<string, State>)
    requires Judging(domains, before, now, {})
    ensures forall k :: k in before ==> Shaped(before[k])
    ensures now.Keys == set k | k in before && Anomalous(Settle(domains, before[k]))
    ensures forall k :: k in now ==> k in before && now[k] == Settle(domains, before[k])
  {
    hide Settle, Anomalous, Shaped;
  }

  /** The messages of `todo` are as before and not yet reported; a report is empty exactly for a normal message. */
  ghost predicate Reporting(before: map<string, State>, now: map<string, State>, reports: map<string, seq<Exception>>,
      todo: set<string>) {
    && (forall k :: k in before ==> Shaped(before[k]))
    && todo <= now.Keys == before.Keys && reports.Keys == before.Keys - todo
    && (forall k :: k in todo ==> now[k] == before[k])
    && (forall k :: k in reports ==> (reports[k] != [] <==> Anomalous(before[k])))
  }

  lemma {:induction false} ReportingStep(before: map<string, State>, now: map<string, State>,
      next: map<string, State>, reports: map<string, seq<Exception>>, todo: set<string>, key: string,
      lines: seq<Exception>)
    requires Reporting(before, now, reports, todo) && key in todo && next.Keys == now.Keys
    requires forall k :: k in next && k != key ==> next[k] == now[k]
    requires lines != [] <==> Anomalous(before[key])
    ensures Reporting(before, next, reports[key := lines], todo - {key})
  {
    hide Anomalous, Shaped;
  }

  lemma {:induction false} ReportingStart(before: map<string, State>)
    requires forall k :: k in before ==> Shaped(before[k])
    ensures Reporting(before, before, map[], before.Keys)
  {
  }

  lemma {:induction false} ReportingNow(before: map<string, State>, now: map<string, State>,
      reports: map<string, seq<Exception>>, todo: set<string>, key: string)
    requires Reporting(before, now, reports, todo) && key in todo
    ensures key in before && key in now && Shaped(before[key]) && now[key] == before[key]
  {
  }

  lemma {:induction false} ReportingEnd(before: map<string, State>, now: map<string, State>,
      reports: map<string, seq<Exception>>)
    requires Reporting(before, now, reports, {})
    ensures reports.Keys == before.Keys
    ensures forall k :: k in reports ==> Shaped(before[k]) && (reports[k] != [] <==> Anomalous(before[k]))
  {
    hide Anomalous, Shaped;
  }

  /** A table of messages, no two of them the same object. */
  ghost predicate Objects(domains: set<string>, t: map<string, Messaggio>)
    reads t.Values
  {
    && (forall k :: k in t ==> t[k].Valid() && t[k].domains == domains)
    && (forall j, k :: j in t && k in t && j != k ==> t[j] != t[k])
  }

  ghost function States(domains: set<string>, t: map<string, Messaggio>): (m: map<string, State>)
    requires Objects(domains, t)
    reads t.Values
    ensures m.Keys == t.Keys && forall k :: k in m ==> Shaped(m[k]) && m[k] == t[k].Snapshot()
  {
    map k | k in t :: t[k].Snapshot()
  }

  lemma {:induction false} ObjectsGrow(domains: set<string>, t: map<string, Messaggio>, key: string, msg: Messaggio)
    requires Objects(domains, t) && key !in t && msg !in t.Values && msg.Valid() && msg.domains == domains
    ensures Objects(domains, t[key := msg]) && t[key := msg].Values <= t.Values + {msg}
    ensures States(domains, t[key := msg]) == States(domains, t)[key := msg.Snapshot()]
  {
    hide Messaggio.Snapshot, Messaggio.Valid, States;
  }

  lemma {:induction false} ObjectsShrink(domains: set<string>, t: map<string, Messaggio>, key: string)
    requires Objects(domains, t) && key in t
    ensures Objects(domains, t - {key}) && (t - {key}).Values <= t.Values
    ensures States(domains, t - {key}) == States(domains, t) - {key}
  {
    hide Messaggio.Snapshot, Messaggio.Valid, States;
  }

  lemma UpdateThenDrop(m: map<string, State>, key: string, s: State)
    ensures m[key := s] - {key} == m - {key}
  {
  }

  /** The table program without a discharge of the table. */
  class TableDriver {
    const domains: set<string>
    var table: map<string, Messaggio>

    constructor (domains: set<string>)
      ensures this.domains == domains && Valid() && table == map[]
    {
      this.domains, table := domains, map[];
    }

    ghost predicate Valid()
      reads this, table.Values
    {
      Objects(domains, table)
    }

    ghost function Model(): (m: map<string, State>)
      requires Valid()
      reads this, table.Values
      ensures m.Keys == table.Keys && forall k :: k in m ==> Shaped(m[k]) && m[k] == table[k].Snapshot()
    {
      States(domains, table)
    }

    /** A further line of a known message. */
    method Update(key: string, l: Line)
      requires Valid() && key in table
      modifies table[key]
      ensures Valid()
      ensures Model() == old(Model())[key := Process(domains, old(Model())[key], l)]
    {
      hide Process, Messaggio.Snapshot, Shaped;
      ghost var before := Model();
      table[key].ProcessLine(l, false);
      assert forall k :: k in table && k != key ==> table[k].Snapshot() == before[k];
    }

    method NewMessage(l: Line) returns (msg: Messaggio)
      requires WellFormed(l)
      ensures fresh(msg) && msg.Valid() && msg.domains == domains
      ensures msg.Snapshot() == Apply(domains, Init(domains, l), l)
    {
      hide Apply, Init;
      msg := new Messaggio(domains, l);
      msg.ProcessLine(l, true);
    }

    /** The first line of a message. */
    method Create(key: string, l: Line)
      requires Valid() && key !in table && WellFormed(l)
      modifies this`table
      ensures Valid() && fresh(table.Values - old(table.Values))
      ensures Model() == old(Model())[key := Apply(domains, Init(domains, l), l)]
    {
      hide Apply, Init, Objects, States, Messaggio.Snapshot, Messaggio.Valid;
      var msg := NewMessage(l);
      ObjectsGrow(domains, table, key, msg);
      table := table[key := msg];
    }

    /** `parseLineForAnomalie`. */
    method ParseLine(l: Line)
      requires Valid() && (Tracked(l) && Fold(l.id) !in table ==> WellFormed(l))
      modifies this, table.Values
      ensures Valid() && fresh(table.Values - old(table.Values))
      ensures Model() == TableStep(domains, old(Model()), l)
    {
      hide Fold, Process, Apply, Init, Model;
      if !Tracked(l) { return; }
      var key := Fold(l.id);
      if key in table {
        Update(key, l);
      } else {
        Create(key, l);
      }
    }

    /** `deleteNotAnomalie` on one message. */
    method JudgeOne(key: string)
      requires Valid() && key in table
      modifies this`table, table[key]
      ensures Valid() && table.Values <= old(table.Values)
      ensures var s := Settle(domains, old(Model())[key]);
              Model() == if Anomalous(s) then old(Model())[key := s] else old(Model()) - {key}
    {
      hide Settle, Anomalous, Objects, States, Messaggio.Snapshot, Shaped;
      ghost var before := Model();
      var anomalia := Judge(key);
      if !anomalia {
        UpdateThenDrop(before, key, Settle(domains, before[key]));
        ObjectsShrink(domains, table, key);
        table := table - {key};
      }
    }

    /** `isAnomalia` on one message. */
    method Judge(key: string) returns (anomalia: bool)
      requires Valid() && key in table
      modifies table[key]
      ensures Valid() && Model() == old(Model())[key := Settle(domains, old(Model())[key])]
      ensures anomalia == Anomalous(Model()[key])
    {
      hide Settle, Anomalous, Messaggio.Snapshot, Shaped, States;
      ghost var before := Model();
      anomalia := table[key].IsAnomalia();
      assert forall k :: k in table && k != key ==> table[k].Snapshot() == before[k];
    }

    /** `deleteNotAnomalie` on every message. */
    method DropNormal()
      requires Valid()
      modifies this`table, table.Values
      ensures Valid() && table.Values <= old(table.Values)
      ensures table.Keys == set k | k in old(Model()) && Anomalous(Settle(domains, old(Model())[k]))
      ensures forall k :: k in table ==> k in old(Model()) && Model()[k] == Settle(domains, old(Model())[k])
    {
      hide Judging, Valid, Model;
      ghost var before := Model();
      var todo := table.Keys;
      JudgingStart(domains, before);
      while todo != {}
        invariant Valid() && table.Values <= old(table.Values)
        invariant todo <= table.Keys && Judging(domains, before, Model(), todo)
        decreases |todo|
      {
        var k :| k in todo;
        JudgingStep(domains, before, Model(), todo, k);
        JudgeOne(k);
        todo := todo - {k};
      }
      JudgingEnd(domains, before, Model());
    }

    /** `reportAnomalie` on one message. */
    method ReportOne(key: string) returns (lines: seq<Exception>)
      requires Valid() && key in table
      modifies table[key]
      ensures Valid()
      ensures lines != [] <==> Anomalous(old(Model())[key])
      ensures forall k :: k in table && k != key ==> Model()[k] == old(Model())[k]
    {
      hide Anomalous, Messaggio.Snapshot, Shaped, Model;
      ghost var before := Model();
      lines := table[key].Report();
      assert forall k :: k in table && k != key ==> table[k].Snapshot() == before[k];
    }

    method ReportNext(key: string, reports: map<string, seq<Exception>>, ghost before: map<string, State>,
        ghost todo: set<string>) returns (more: map<string, seq<Exception>>)
      requires Valid() && key in todo && todo <= table.Keys && Reporting(before, Model(), reports, todo)
      modifies table[key]
      ensures Valid() && Reporting(before, Model(), more, todo - {key})
    {
      hide Anomalous, Model, Valid, Reporting, Messaggio.Snapshot, Shaped, States, Objects;
      ghost var now := Model();
      ReportingNow(before, now, reports, todo, key);
      var lines := ReportOne(key);
      ReportingStep(before, now, Model(), reports, todo, key, lines);
      more := reports[key := lines];
    }

    /** `reportAnomalie` on every message that is left. */
    method ReportAll() returns (reports: map<string, seq<Exception>>)
      requires Valid()
      modifies table.Values
      ensures reports.Keys == table.Keys
      ensures forall k :: k in reports ==> (reports[k] != [] <==> Anomalous(old(Model())[k]))
    {
      hide Anomalous, Model, Valid, Reporting, Messaggio.Snapshot, Shaped, States, Objects;
      ghost var before := Model();
      var todo := table.Keys;
      reports := map[];
      ReportingStart(before);
      while todo != {}
        invariant Valid() && todo <= table.Keys && Reporting(before, Model(), reports, todo)
        decreases |todo|
      {
        var k :| k in todo;
        reports := ReportNext(k, reports, before, todo);
        todo := todo - {k};
      }
      ReportingEnd(before, Model(), reports);
    }

    /** `end`: drops the messages that are not anomalous and reports the others. */
    method End() returns (reports: map<string, seq<Exception>>)
      requires Valid()
      modifies this`table, table.Values
      ensures reports.Keys == set k | k in old(Model()) && Anomalous(Settle(domains, old(Model())[k]))
      ensures forall k :: k in reports ==> reports[k] != []
    {
      hide Anomalous, Settle, Messaggio.Snapshot, Shaped;
      DropNormal();
      reports := ReportAll();
    }
  }

  /** The streaming program. */
  class StreamDriver {
    const domains: set<string>
    var msg: Messaggio?
    var printed: seq<string>

    constructor (domains: set<string>)
      ensures this.domains == domains && Valid() && Model() == Stream(NoMessage, [])
    {
      this.domains, msg, printed := domains, null, [];
    }

    ghost predicate Valid()
      reads this, msg
    {
      msg != null ==> msg.Valid() && msg.domains == domains
    }

    ghost function Model(): (s: Stream)
      requires Valid()
      reads this, msg
      ensures StreamShaped(s)
    {
      Stream(if msg == null then NoMessage else Message(msg.identifier, msg.Snapshot()), printed)
    }

    /** Judges the current message and reports it if it is anomalous. */
    method Close()
      requires Valid() && msg != null
      modifies this`printed, msg
      ensures printed == Closed(domains, old(Model()))
    {
      var anomalia := msg.IsAnomalia();
      if anomalia {
        var out := msg.Report();
        assert out != [];
        printed := printed + [msg.identifier];
      }
    }

    /** `parseLineForAnomalie`. */
    method ParseLine(l: Line)
      requires Valid() && (Tracked(l) && (msg == null || msg.identifier != l.id) ==> WellFormed(l))
      modifies this, msg
      ensures Valid() && (msg == old(msg) || fresh(msg))
      ensures Model() == StreamStep(domains, old(Model()), l)
    {
      hide Process, Apply, Init, Settle, Anomalous;
      if Tracked(l) {
        var bnew := false;
        if msg == null {
          bnew := true;
          msg := new Messaggio(domains, l);
        } else if msg.identifier != l.id {
          bnew := true;
          Close();
          msg := new Messaggio(domains, l);
        }
        msg.ProcessLine(l, bnew);
      }
    }

    /** `end`. */
    method End()
      requires Valid()
      modifies this`printed, msg
      ensures printed == Closed(domains, old(Model()))
    {
      if msg != null {
        Close();
      }
    }
  }

  /** The table program on a whole log: exactly the anomalous messages are reported. */
  method ReportByTable(domains: set<string>, ls: seq<Line>) returns (ids: set<string>)
    requires forall i :: 0 <= i < |ls| && Opens(ls, i) ==> WellFormed(ls[i])
    ensures ids == Reportable(domains, ls) == Reportable(domains, Relevant(ls))
  {
    IrrelevantIgnored(domains, ls);
    hide Fold, Verdict, Run, TableStep, Relevant;
    var d := new TableDriver(domains);
    assert Tabulates(domains, [], d.Model());
    for i := 0 to |ls|
      invariant d.Valid() && d.domains == domains && fresh(d) && fresh(d.table.Values)
      invariant Tabulates(domains, ls[..i], d.Model())
    {
      TableTabulates(domains, ls[..i], ls[i], d.Model());
      assert ls[..i + 1] == ls[..i] + [ls[i]];
      d.ParseLine(ls[i]);
    }
    assert ls[..|ls|] == ls;
    ghost var t := d.Model();
    var reports := d.End();
    ids := reports.Keys;
    TabulatedReports(domains, ls, t);
  }

  lemma {:induction false} TabulatedReports(domains: set<string>, ls: seq<Line>, t: map<string, State>)
    requires Tabulates(domains, ls, t)
    ensures (set k | k in t && Anomalous(Settle(domains, t[k]))) == Reportable(domains, ls)
  {
    hide Fold, Anomalous, Settle, Run;
    forall k | k in t
      ensures exists l :: l in ls && Tracked(l) && Fold(l.id) == k
    {
      var l := ByKey(ls, k)[0];
      assert l in ByKey(ls, k);
    }
  }

  /** The streaming program on a whole grouped log: exactly the anomalous messages are reported. */
  method ReportByStream(domains: set<string>, ls: seq<Line>) returns (ids: set<string>)
    requires forall i :: 0 <= i < |ls| && Switches(ls, i) ==> WellFormed(ls[i])
    ensures Grouped(ls) && OneCase(ls) ==> ids == Reportable(domains, ls) == Reportable(domains, Relevant(ls))
  {
    IrrelevantIgnored(domains, ls);
    hide Fold, Verdict, Run, StreamStep, Streams, Closed, Reportable, WellFormed, CurrentId, Grouped, OneCase;
    var d := new StreamDriver(domains);
    assert ls[..0] == [];
    StreamsAtStart(domains);
    for i := 0 to |ls|
      invariant d.Valid() && d.domains == domains && fresh(d) && (d.msg != null ==> fresh(d.msg))
      invariant CurrentId(ls[..i]) == IdOf(d.Model().cur)
      invariant Grouped(ls) && OneCase(ls) ==> Streams(domains, ls[..i], d.Model())
    {
      CurrentIdNext(ls, i);
      assert Tracked(ls[i]) && CurrentId(ls[..i]) != Some(ls[i].id) ==> Switches(ls, i);
      if Grouped(ls) && OneCase(ls) {
        PrefixGrouped(ls, i + 1);
        assert ls[..i + 1] == ls[..i] + [ls[i]];
        StreamStreams(domains, ls[..i], ls[i], d.Model());
      }
      StepId(domains, d.Model(), ls[i]);
      d.ParseLine(ls[i]);
    }
    assert ls[..|ls|] == ls;
    if Grouped(ls) && OneCase(ls) {
      StreamReports(domains, ls, d.Model());
    }
    d.End();
    ids := set x | x in d.printed :: Fold(x);
  }

  lemma StreamsAtStart(domains: set<string>)
    ensures Streams(domains, [], Stream(NoMessage, [])) && CurrentId([]) == None
  {
  }

  lemma {:induction false} PrefixGrouped(ls: seq<Line>, n: nat)
    requires Grouped(ls) && OneCase(ls) && n <= |ls|
    ensures Grouped(ls[..n]) && OneCase(ls[..n])
  {
    hide Fold;
  }

  /** The table program on a log and the streaming program on a sorted copy of it report the same messages if the
      marks that matter agree in every message that could be normal, or if sorting kept the order within messages. */
  method ReportBoth(domains: set<string>, log: seq<Line>, sorted: seq<Line>)
    returns (byTable: set<string>, byStream: set<string>)
    requires forall i :: 0 <= i < |log| && Opens(log, i) ==> WellFormed(log[i])
    requires forall i :: 0 <= i < |sorted| && Switches(sorted, i) ==> WellFormed(sorted[i])
    requires multiset(log) == multiset(sorted)
    ensures Grouped(sorted) && OneCase(sorted) && MarksSettled(domains, log) ==> byTable == byStream
    ensures Grouped(sorted) && OneCase(sorted) && (forall key :: ByKey(log, key) == ByKey(sorted, key)) ==>
            byTable == byStream
  {
    hide Fold, Reportable, Grouped, OneCase, MarksSettled, ByKey;
    byTable := ReportByTable(domains, log);
    byStream := ReportByStream(domains, sorted);
    if MarksSettled(domains, log) {
      ReportablePermuted(domains, log, sorted);
    }
    if forall key :: ByKey(log, key) == ByKey(sorted, key) {
      ReportableStable(domains, log, sorted);
    }
  }
}
