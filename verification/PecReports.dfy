/** What the two report programs print, as functions of the whole log, and why they agree. */
module PecReports {
  import opened Wrappers
  import opened PecModel
  import opened PecCounts
  import opened PecVerdict
  import opened PecOrder
  import opened PecMarks

  predicate Of(l: Line, key: string) { Tracked(l) && Fold(l.id) == key }

  /** The lines of one message, ids compared without case. */
  function ByKey(ls: seq<Line>, key: string): (b: seq<Line>)
    ensures forall l :: l in b ==> l in ls && Of(l, key)
  {
    if ls == [] then [] else
    var b, l := ByKey(ls[..|ls| - 1], key), ls[|ls| - 1];
    if Of(l, key) then b + [l] else b
  }

  lemma {:induction false} ByKeyHas(ls: seq<Line>, l: Line)
    requires l in ls && Tracked(l)
    ensures l in ByKey(ls, Fold(l.id)) && ByKey(ls, Fold(l.id)) != []
  {
    var n := |ls| - 1;
    if l != ls[n] {
      assert ls == ls[..n] + [ls[n]];
      ByKeyHas(ls[..n], l);
    }
  }

  lemma {:induction false} ByKeyNone(ls: seq<Line>, key: string)
    requires forall l :: l in ls ==> !Of(l, key)
    ensures ByKey(ls, key) == []
  {
    if ls != [] {
      ByKeyNone(ls[..|ls| - 1], key);
    }
  }

  /** The messages that should be reported. */
  ghost function Reportable(domains: set<string>, ls: seq<Line>): set<string> {
    set l | l in ls && Tracked(l) && ByKey(ls, Fold(l.id)) != [] &&
      Verdict(domains, ByKey(ls, Fold(l.id))) :: Fold(l.id)
  }

  /** Line i is the first of its message. */
  ghost predicate Opens(ls: seq<Line>, i: nat)
    requires i < |ls|
  {
    Tracked(ls[i]) && ByKey(ls[..i], Fold(ls[i].id)) == []
  }

  /** The id of the last tracked line. */
  function CurrentId(ls: seq<Line>): Option<string> {
    if ls == [] then None
    else if Tracked(ls[|ls| - 1]) then Some(ls[|ls| - 1].id)
    else CurrentId(ls[..|ls| - 1])
  }

  /** Line i has another id than the tracked line before it. */
  predicate Switches(ls: seq<Line>, i: nat)
    requires i < |ls|
  {
    Tracked(ls[i]) && CurrentId(ls[..i]) != Some(ls[i].id)
  }

  /** Lines whose ids differ at most in case are lines of one message. */
  lemma {:induction false} OneMessage(k: Line, l: Line)
    requires Tracked(k) && Tracked(l)
    ensures ByKey([k, l], Fold(k.id)) ==
            if |k.id| == |l.id| && forall i :: 0 <= i < |k.id| ==> SameLetter(k.id[i], l.id[i]) then [k, l] else [k]
  {
    hide Fold, SameLetter, ByKey;
    FoldExactly(k.id, l.id);
    ByKeyNone([], Fold(k.id));
    ByKeyAppend([], k, Fold(k.id));
    ByKeyAppend([k], l, Fold(k.id));
    assert [] + [k] == [k] && [k] + [l] == [k, l];
  }

  // The table program

  /** One line in the table. */
  function TableStep(domains: set<string>, t: map<string, State>, l: Line): map<string, State>
    requires forall k :: k in t ==> Shaped(t[k])
  {
    if !Tracked(l) then t else
    var k := Fold(l.id);
    t[k := if k in t then Process(domains, t[k], l) else Apply(domains, Init(domains, l), l)]
  }

  /** The table after the log ls holds every message with the state that its own lines give. */
  ghost predicate Tabulates(domains: set<string>, ls: seq<Line>, t: map<string, State>) {
    && (forall k :: k in t <==> ByKey(ls, k) != [])
    && (forall k :: k in t ==> Shaped(t[k]) && t[k] == Run(domains, ByKey(ls, k)))
  }

  lemma {:induction false} TableTabulates(domains: set<string>, ls: seq<Line>, l: Line, t: map<string, State>)
    requires Tabulates(domains, ls, t)
    ensures Tabulates(domains, ls + [l], TableStep(domains, t, l))
  {
    hide Fold, Process, Apply, Init;
    var all, t' := ls + [l], TableStep(domains, t, l);
    assert all[..|all| - 1] == ls;
    forall k
      ensures k in t' <==> ByKey(all, k) != []
      ensures k in t' ==> Shaped(t'[k]) && t'[k] == Run(domains, ByKey(all, k))
    {
      if Of(l, k) {
        var b := ByKey(all, k);
        assert b[..|b| - 1] == ByKey(ls, k);
      }
    }
  }

  // The streaming program

  datatype Current = NoMessage | Message(id: string, state: State)

  function IdOf(c: Current): Option<string> { if c.NoMessage? then None else Some(c.id) }

  datatype Stream = Stream(cur: Current, printed: seq<string>)

  predicate StreamShaped(s: Stream) { s.cur.Message? ==> Shaped(s.cur.state) }

  /** The id that is printed when the current message is over, if it is anomalous. */
  function Closed(domains: set<string>, s: Stream): seq<string>
    requires StreamShaped(s)
  {
    if s.cur.Message? && Anomalous(Settle(domains, s.cur.state)) then s.printed + [s.cur.id] else s.printed
  }

  function StreamStep(domains: set<string>, s: Stream, l: Line): (r: Stream)
    requires StreamShaped(s)
    ensures StreamShaped(r)
  {
    if !Tracked(l) then s
    else if s.cur.Message? && s.cur.id == l.id then s.(cur := Message(l.id, Process(domains, s.cur.state, l)))
    else Stream(Message(l.id, Apply(domains, Init(domains, l), l)), Closed(domains, s))
  }

  lemma StepId(domains: set<string>, s: Stream, l: Line)
    requires StreamShaped(s)
    ensures IdOf(StreamStep(domains, s, l).cur) == if Tracked(l) then Some(l.id) else IdOf(s.cur)
  {
    hide Process, Apply, Init;
  }

  lemma CurrentIdNext(ls: seq<Line>, i: nat)
    requires i < |ls|
    ensures CurrentId(ls[..i + 1]) == if Tracked(ls[i]) then Some(ls[i].id) else CurrentId(ls[..i])
  {
    assert ls[..i + 1][..i] == ls[..i];
  }

  /** Tracked lines of one id form one block. */
  ghost predicate Grouped(ls: seq<Line>) {
    forall i, j, k | 0 <= i < j < k < |ls| && Tracked(ls[i]) && Tracked(ls[j]) && Tracked(ls[k]) &&
                     ls[i].id == ls[k].id ::
      ls[j].id == ls[i].id
  }

  /** Ids equal ignoring case are equal. */
  ghost predicate OneCase(ls: seq<Line>) {
    forall k, l :: k in ls && l in ls && Fold(k.id) == Fold(l.id) ==> k.id == l.id
  }

  ghost predicate Seen(ls: seq<Line>, id: string) {
    exists l :: l in ls && Tracked(l) && l.id == id
  }

  /** An anomalous message of the log. */
  ghost predicate Bad(domains: set<string>, ls: seq<Line>, id: string) {
    Seen(ls, id) && ByKey(ls, Fold(id)) != [] && Verdict(domains, ByKey(ls, Fold(id)))
  }

  /** On grouped input: the current message has the state its lines give, the earlier ones are judged. */
  ghost predicate Streams(domains: set<string>, ls: seq<Line>, s: Stream)
    requires StreamShaped(s)
  {
    match s.cur
    case NoMessage => s.printed == [] && (forall l :: l in ls ==> !Tracked(l))
    case Message(id, state) =>
      && Seen(ls, id) && ByKey(ls, Fold(id)) != []
      && (exists k :: 0 <= k < |ls| && Tracked(ls[k]) && ls[k].id == id && forall j :: k < j < |ls| ==> !Tracked(ls[j]))
      && state == Run(domains, ByKey(ls, Fold(id)))
      && (forall x :: x in s.printed <==> x != id && Bad(domains, ls, x))
  }

  lemma {:induction false} SeenAppend(ls: seq<Line>, l: Line, id: string)
    ensures Seen(ls + [l], id) <==> Seen(ls, id) || (Tracked(l) && l.id == id)
  {
    assert l in ls + [l];
    if Seen(ls, id) {
      var m :| m in ls && Tracked(m) && m.id == id;
      assert m in ls + [l];
    }
  }

  lemma {:induction false} ByKeyAppend(ls: seq<Line>, l: Line, key: string)
    ensures ByKey(ls + [l], key) == if Of(l, key) then ByKey(ls, key) + [l] else ByKey(ls, key)
  {
    assert (ls + [l])[..|ls|] == ls;
  }

  /** A line of another id leaves the other messages as they are. */
  lemma {:induction false} BadElsewhere(domains: set<string>, ls: seq<Line>, l: Line, id: string)
    requires OneCase(ls + [l]) && (id != l.id || !Tracked(l))
    ensures Bad(domains, ls + [l], id) <==> Bad(domains, ls, id)
  {
    hide Fold, Verdict;
    SeenAppend(ls, l, id);
    ByKeyAppend(ls, l, Fold(id));
    if Seen(ls, id) {
      var m :| m in ls && Tracked(m) && m.id == id;
      assert m in ls + [l] && l in ls + [l];
    }
  }

  lemma {:induction false} StreamStreams(domains: set<string>, ls: seq<Line>, l: Line, s: Stream)
    requires Grouped(ls + [l]) && OneCase(ls + [l]) && StreamShaped(s) && Streams(domains, ls, s)
    ensures Streams(domains, ls + [l], StreamStep(domains, s, l))
  {
    hide Fold, Process, Apply, Init, Verdict, Anomalous, Settle, Run, ByKey, Seen, Bad;
    if !Tracked(l) {
      StreamUntracked(domains, ls, l, s);
    } else if s.cur.Message? && s.cur.id == l.id {
      StreamSame(domains, ls, l, s);
    } else {
      StreamNew(domains, ls, l, s);
    }
  }

  lemma {:induction false} StreamUntracked(domains: set<string>, ls: seq<Line>, l: Line, s: Stream)
    requires OneCase(ls + [l]) && StreamShaped(s) && Streams(domains, ls, s) && !Tracked(l)
    ensures Streams(domains, ls + [l], s)
  {
    hide Fold, Verdict, Run, ByKey, Seen, Bad;
    var all := ls + [l];
    if s.cur.Message? {
      var id := s.cur.id;
      SeenAppend(ls, l, id);
      ByKeyAppend(ls, l, Fold(id));
      forall x ensures Bad(domains, all, x) <==> Bad(domains, ls, x) { BadElsewhere(domains, ls, l, x); }
      var k :| 0 <= k < |ls| && Tracked(ls[k]) && ls[k].id == id && forall j :: k < j < |ls| ==> !Tracked(ls[j]);
      assert all[k] == ls[k] && forall j :: k < j < |all| ==> !Tracked(all[j]);
    }
  }

  lemma {:induction false} StreamSame(domains: set<string>, ls: seq<Line>, l: Line, s: Stream)
    requires OneCase(ls + [l]) && StreamShaped(s) && Streams(domains, ls, s)
    requires Tracked(l) && s.cur.Message? && s.cur.id == l.id
    ensures Streams(domains, ls + [l], StreamStep(domains, s, l))
  {
    hide Fold, Process, Apply, Init, Verdict, ByKey, Seen, Bad;
    var all, id := ls + [l], l.id;
    SeenAppend(ls, l, id);
    ByKeyAppend(ls, l, Fold(id));
    var b := ByKey(all, Fold(id));
    assert b[..|b| - 1] == ByKey(ls, Fold(id)) && b[|b| - 1] == l;
    forall x | x != id ensures Bad(domains, all, x) <==> Bad(domains, ls, x) { BadElsewhere(domains, ls, l, x); }
    assert all[|ls|] == l;
  }

  /** In grouped input a line of a new id starts a message that has not been seen. */
  lemma {:induction false} NewIsUnseen(domains: set<string>, ls: seq<Line>, l: Line, s: Stream)
    requires Grouped(ls + [l]) && OneCase(ls + [l]) && StreamShaped(s) && Streams(domains, ls, s)
    requires Tracked(l) && !(s.cur.Message? && s.cur.id == l.id)
    ensures forall m :: m in ls ==> !Of(m, Fold(l.id))
  {
    hide Fold, Verdict, Run, ByKey, Seen, Bad;
    var all := ls + [l];
    assert all[|ls|] == l && l in all;
    forall m | m in ls
      ensures !Of(m, Fold(l.id))
    {
      var i :| 0 <= i < |ls| && ls[i] == m;
      assert all[i] == m && m in all;
      if Tracked(m) && s.cur.Message? {
        var k :| 0 <= k < |ls| && Tracked(ls[k]) && ls[k].id == s.cur.id &&
                 forall j :: k < j < |ls| ==> !Tracked(ls[j]);
        assert all[k] == ls[k] && i <= k;
      }
    }
  }

  lemma {:induction false} StreamNew(domains: set<string>, ls: seq<Line>, l: Line, s: Stream)
    requires Grouped(ls + [l]) && OneCase(ls + [l]) && StreamShaped(s) && Streams(domains, ls, s)
    requires Tracked(l) && !(s.cur.Message? && s.cur.id == l.id)
    ensures Streams(domains, ls + [l], StreamStep(domains, s, l))
  {
    hide Fold, Process, Apply, Init, ByKey, Anomalous, Settle;
    var all, id := ls + [l], l.id;
    NewIsUnseen(domains, ls, l, s);
    SeenAppend(ls, l, id);
    ByKeyNone(ls, Fold(id));
    ByKeyAppend(ls, l, Fold(id));
    assert ByKey(all, Fold(id)) == [l] && [l][..0] == [];
    forall x | x != id ensures Bad(domains, all, x) <==> Bad(domains, ls, x) { BadElsewhere(domains, ls, l, x); }
    assert all[|ls|] == l;
    assert !Seen(ls, id);
    forall x
      ensures x in Closed(domains, s) <==> x != id && Bad(domains, all, x)
    {
    }
  }

  /** The streaming program's report on grouped input is the right one. */
  lemma {:induction false} StreamReports(domains: set<string>, ls: seq<Line>, s: Stream)
    requires OneCase(ls) && StreamShaped(s) && Streams(domains, ls, s)
    ensures (set x | x in Closed(domains, s) :: Fold(x)) == Reportable(domains, ls)
  {
    hide Fold, ByKey, Anomalous, Settle, Run;
    forall x
      ensures x in Closed(domains, s) <==> Bad(domains, ls, x)
    {
    }
    forall key
      ensures key in (set x | x in Closed(domains, s) :: Fold(x)) <==> key in Reportable(domains, ls)
    {
      if key in (set x | x in Closed(domains, s) :: Fold(x)) {
        var x :| x in Closed(domains, s) && Fold(x) == key;
        assert Bad(domains, ls, x);
        var m :| m in ls && Tracked(m) && m.id == x;
      }
      if key in Reportable(domains, ls) {
        var l :| l in ls && Tracked(l) && ByKey(ls, Fold(l.id)) != [] &&
          Verdict(domains, ByKey(ls, Fold(l.id))) && Fold(l.id) == key;
        assert Bad(domains, ls, l.id);
      }
    }
  }

  // Reordering the log

  lemma {:induction false} ByKeyMultiset(ls: seq<Line>, key: string, l: Line)
    ensures multiset(ByKey(ls, key))[l] == if Of(l, key) then multiset(ls)[l] else 0
  {
    hide Fold;
    if ls != [] {
      var n := |ls| - 1;
      ByKeyMultiset(ls[..n], key, l);
      assert ls == ls[..n] + [ls[n]];
    }
  }

  lemma {:induction false} ReportableKey(domains: set<string>, ls: seq<Line>, key: string)
    ensures key in Reportable(domains, ls) <==> ByKey(ls, key) != [] && Verdict(domains, ByKey(ls, key))
  {
    hide Fold, Verdict;
    var b := ByKey(ls, key);
    if b != [] {
      assert b[0] in b;
      assert b[0] in ls && Of(b[0], key);
    }
  }

  lemma {:induction false} ByKeyPermuted(a: seq<Line>, b: seq<Line>, key: string)
    requires multiset(a) == multiset(b)
    ensures multiset(ByKey(a, key)) == multiset(ByKey(b, key))
  {
    hide Fold, ByKey;
    forall l ensures multiset(ByKey(a, key))[l] == multiset(ByKey(b, key))[l] {
      ByKeyMultiset(a, key, l);
      ByKeyMultiset(b, key, l);
    }
  }

  /** In every message that some order makes normal, all lines agree on the marks that matter. */
  ghost predicate MarksSettled(domains: set<string>, ls: seq<Line>) {
    forall key :: ByKey(ls, key) != [] && SomeNormal(domains, ByKey(ls, key)) ==> MarksMatch(domains, ByKey(ls, key))
  }

  /** A copy of the log in another order leads to the same report. */
  lemma {:induction false} ReportablePermuted(domains: set<string>, a: seq<Line>, b: seq<Line>)
    requires multiset(a) == multiset(b) && MarksSettled(domains, a)
    ensures Reportable(domains, a) == Reportable(domains, b)
  {
    hide Fold, Verdict, Reportable, SomeNormal, MarksMatch, ByKey;
    forall key
      ensures key in Reportable(domains, a) <==> key in Reportable(domains, b)
    {
      ReportableKey(domains, a, key);
      ReportableKey(domains, b, key);
      ByKeyPermuted(a, b, key);
      var p, q := ByKey(a, key), ByKey(b, key);
      assert |p| == |multiset(p)| == |multiset(q)| == |q|;
      if p != [] {
        OneVerdictByMarks(domains, p);
        assert Reordering(p, q);
      }
    }
  }

  /** A copy that keeps the order within each message leads to the same report, whatever the marks are. */
  lemma {:induction false} ReportableStable(domains: set<string>, a: seq<Line>, b: seq<Line>)
    requires forall key :: ByKey(a, key) == ByKey(b, key)
    ensures Reportable(domains, a) == Reportable(domains, b)
  {
    hide Fold, Verdict, Reportable, ByKey;
    forall key
      ensures key in Reportable(domains, a) <==> key in Reportable(domains, b)
    {
      ReportableKey(domains, a, key);
      ReportableKey(domains, b, key);
    }
  }

  // Without agreement on the marks some grouped copy leads to another report

  ghost predicate SortedCopy(a: seq<Line>, b: seq<Line>) {
    multiset(a) == multiset(b) && Grouped(b)
  }

  function Others(ls: seq<Line>, key: string): (o: seq<Line>)
    ensures |o| + |ByKey(ls, key)| == |ls|
    ensures forall l :: l in o ==> l in ls && !Of(l, key)
  {
    if ls == [] then [] else
    var o, l := Others(ls[..|ls| - 1], key), ls[|ls| - 1];
    if Of(l, key) then o else o + [l]
  }

  lemma {:induction false} SplitByKey(ls: seq<Line>, key: string)
    ensures multiset(ByKey(ls, key) + Others(ls, key)) == multiset(ls)
  {
    hide Fold;
    if ls != [] {
      var n := |ls| - 1;
      SplitByKey(ls[..n], key);
      assert ls == ls[..n] + [ls[n]];
    }
  }

  /** The log with the lines of each message together. */
  function Gathered(ls: seq<Line>): seq<Line>
    decreases |ls|
  {
    if ls == [] then [] else
    var l := ls[0];
    if !Tracked(l) then [l] + Gathered(ls[1..])
    else
      ByKeyHas(ls, l);
      ByKey(ls, Fold(l.id)) + Gathered(Others(ls, Fold(l.id)))
  }

  lemma {:induction false} GatheredCopy(ls: seq<Line>)
    ensures multiset(Gathered(ls)) == multiset(ls)
    decreases |ls|
  {
    hide Fold, ByKey, Others;
    if ls != [] {
      var l := ls[0];
      if !Tracked(l) {
        GatheredCopy(ls[1..]);
        assert ls == [l] + ls[1..];
      } else {
        ByKeyHas(ls, l);
        SplitByKey(ls, Fold(l.id));
        GatheredCopy(Others(ls, Fold(l.id)));
      }
    }
  }

  /** A block of lines of one id in front of grouped lines of other ids. */
  lemma {:induction false} BlockGrouped(c: seq<Line>, g: seq<Line>)
    requires Grouped(g) && (forall k, l :: k in c && l in c ==> k.id == l.id)
    requires forall k, l :: k in c && l in g && Tracked(l) ==> k.id != l.id
    ensures Grouped(c + g)
  {
    var ls, n := c + g, |c|;
    forall i, j, k | 0 <= i < j < k < |ls| && Tracked(ls[i]) && Tracked(ls[j]) && Tracked(ls[k]) && ls[i].id == ls[k].id
      ensures ls[j].id == ls[i].id
    {
      if k < n {
        assert ls[i] == c[i] && ls[j] == c[j];
        assert c[i] in c && c[j] in c;
      } else {
        assert ls[k] == g[k - n] && g[k - n] in g;
        assert n <= i;
        assert ls[i] == g[i - n] && ls[j] == g[j - n];
      }
    }
  }

  lemma {:induction false} InCopy(a: seq<Line>, b: seq<Line>, l: Line)
    requires multiset(a) == multiset(b)
    ensures l in a <==> l in b
  {
    assert l in a <==> l in multiset(a);
    assert l in b <==> l in multiset(b);
  }

  lemma {:induction false} GatheredGrouped(ls: seq<Line>)
    requires OneCase(ls)
    ensures Grouped(Gathered(ls))
    decreases |ls|
  {
    hide Fold, ByKey, Others, Grouped;
    if ls == [] {
      assert Grouped([]) by { NothingGrouped(); }
    } else {
      var l := ls[0];
      if !Tracked(l) {
        GatheredGrouped(ls[1..]);
        UntrackedGrouped(l, Gathered(ls[1..]));
      } else {
        var key := Fold(l.id);
        ByKeyHas(ls, l);
        GatheredGrouped(Others(ls, key));
        BehindBlock(ls, key, ByKey(ls, key));
      }
    }
  }

  lemma NothingGrouped()
    ensures Grouped([])
  {
  }

  lemma {:induction false} UntrackedGrouped(l: Line, g: seq<Line>)
    requires Grouped(g) && !Tracked(l)
    ensures Grouped([l] + g)
  {
    var ls := [l] + g;
    assert forall i :: 0 < i < |ls| ==> ls[i] == g[i - 1];
    assert !Tracked(ls[0]);
  }

  /** The lines of one message, in any order, in front of the other lines gathered. */
  lemma {:induction false} BehindBlock(ls: seq<Line>, key: string, c: seq<Line>)
    requires OneCase(ls) && multiset(c) == multiset(ByKey(ls, key)) && Grouped(Gathered(Others(ls, key)))
    ensures Grouped(c + Gathered(Others(ls, key)))
  {
    hide Fold, ByKey, Others, Grouped, Gathered;
    var g := Gathered(Others(ls, key));
    GatheredCopy(Others(ls, key));
    forall l ensures l in c ==> l in ls && Of(l, key) { InCopy(c, ByKey(ls, key), l); }
    forall l ensures l in g ==> l in ls && !Of(l, key) { InCopy(g, Others(ls, key), l); }
    BlockGrouped(c, g);
  }

  lemma {:induction false} ByKeyConcat(a: seq<Line>, b: seq<Line>, key: string)
    ensures ByKey(a + b, key) == ByKey(a, key) + ByKey(b, key)
  {
    hide Fold;
    if b == [] {
      assert a + b == a;
    } else {
      var n := |b| - 1;
      ByKeyConcat(a, b[..n], key);
      assert (a + b)[..|a + b| - 1] == a + b[..n];
    }
  }

  lemma {:induction false} ByKeyAll(c: seq<Line>, key: string)
    requires forall l :: l in c ==> Of(l, key)
    ensures ByKey(c, key) == c
  {
    hide Fold;
    if c != [] {
      assert c[|c| - 1] in c;
      ByKeyAll(c[..|c| - 1], key);
    }
  }

  /** Any order of one message's lines occurs in some grouped copy of the log. */
  lemma {:induction false} CopyWithOrder(ls: seq<Line>, key: string, c: seq<Line>) returns (b: seq<Line>)
    requires OneCase(ls) && multiset(c) == multiset(ByKey(ls, key))
    ensures SortedCopy(ls, b) && ByKey(b, key) == c
  {
    hide Fold, ByKey, Others, Grouped, Gathered;
    var o := Others(ls, key);
    var g := Gathered(o);
    b := c + g;
    GatheredCopy(o);
    SplitByKey(ls, key);
    GatheredGrouped(o);
    BehindBlock(ls, key, c);
    forall l ensures l in c ==> Of(l, key) { InCopy(c, ByKey(ls, key), l); }
    forall l ensures l in g ==> !Of(l, key) { InCopy(g, o, l); }
    ByKeyConcat(c, g, key);
    ByKeyAll(c, key);
    ByKeyNone(g, key);
  }

  /** All grouped copies of a log lead to the report of the log exactly if the marks that matter agree
      in every message that some order makes normal. */
  lemma {:induction false} ReportsAgreeExactly(domains: set<string>, log: seq<Line>)
    requires OneCase(log)
    ensures (forall b :: SortedCopy(log, b) ==> Reportable(domains, b) == Reportable(domains, log)) <==>
            MarksSettled(domains, log)
  {
    hide Fold, Verdict, Reportable, SomeNormal, MarksMatch, ByKey, Grouped, OneCase;
    if MarksSettled(domains, log) {
      forall b | SortedCopy(log, b) ensures Reportable(domains, b) == Reportable(domains, log) {
        ReportablePermuted(domains, log, b);
      }
    } else {
      var key :| ByKey(log, key) != [] && SomeNormal(domains, ByKey(log, key)) && !MarksMatch(domains, ByKey(log, key));
      OneVerdictByMarks(domains, ByKey(log, key));
      var c :| Reordering(ByKey(log, key), c) && Verdict(domains, c) != Verdict(domains, ByKey(log, key));
      var b := CopyWithOrder(log, key, c);
      ReportableKey(domains, log, key);
      ReportableKey(domains, b, key);
      assert Reportable(domains, b) != Reportable(domains, log);
    }
  }

  // Lines that are left out

  /** The log without the anomaly envelopes and the refusals. */
  function Relevant(ls: seq<Line>): seq<Line> {
    if ls == [] then [] else
    var l := ls[|ls| - 1];
    Relevant(ls[..|ls| - 1]) + if l.kind == BustaAnomalia || l.kind == NonAccettazione then [] else [l]
  }

  lemma {:induction false} RelevantByKey(ls: seq<Line>, key: string)
    ensures ByKey(Relevant(ls), key) == ByKey(ls, key)
  {
    hide Fold;
    if ls != [] {
      var n := |ls| - 1;
      RelevantByKey(ls[..n], key);
      if ls[n].kind != BustaAnomalia && ls[n].kind != NonAccettazione {
        ByKeyAppend(Relevant(ls[..n]), ls[n], key);
      } else {
        assert Relevant(ls) == Relevant(ls[..n]);
      }
    }
  }

  /** Lines of these two kinds make no difference. */
  lemma {:induction false} IrrelevantIgnored(domains: set<string>, ls: seq<Line>)
    ensures Reportable(domains, ls) == Reportable(domains, Relevant(ls))
  {
    hide Reportable, ByKey, Relevant;
    forall key ensures ByKey(ls, key) == ByKey(Relevant(ls), key) { RelevantByKey(ls, key); }
    ReportableStable(domains, ls, Relevant(ls));
  }

  /** Lines of all other kinds do: one of them alone makes a message that is reported. */
  lemma {:induction false} SingleLine(domains: set<string>, l: Line)
    requires IsDomain(domains, l.sender)
    ensures Reportable(domains, [l]) ==
            if l.kind == BustaAnomalia || l.kind == NonAccettazione then {} else {Fold(l.id)}
  {
    hide Verdict, IsDomain, Reportable, Fold, ByKey, Total;
    VerdictExact(domains, [l]);
    TotalOfOne(Envelopes(), l);
    TotalOfOne(Acceptances(), l);
    assert Verdict(domains, [l]);
    forall key
      ensures key in Reportable(domains, [l]) <==>
              l.kind != BustaAnomalia && l.kind != NonAccettazione && key == Fold(l.id)
    {
      ReportableKey(domains, [l], key);
      ByKeyNone([], key);
      ByKeyAppend([], l, key);
      assert [] + [l] == [l];
    }
  }
}
