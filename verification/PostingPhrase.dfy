/** Phrase search: `callForCompositeWord` (examples/IR/posting.cpp) against the meaning of a phrase. */
module PostingPhrase {
  import opened Words

  /** A sub-word of the phrase and its positions in a document; those of a short sub-word are not looked at. */
  datatype Part = Part(size: uint32, ps: seq<uint32>)

  /** The sub-words from j on can be placed, each long one at most maxd behind the running end. */
  ghost predicate Chain(parts: seq<Part>, min: nat, maxd: uint32, j: nat, prev: uint32)
    requires j <= |parts|
    decreases |parts| - j
  {
    if j == |parts| then true
    else if parts[j].size < min then Chain(parts, min, maxd, j + 1, Wrap(prev + 1 + parts[j].size))
    else exists p :: p in parts[j].ps && Wrap(p - prev) <= maxd &&
                     Chain(parts, min, maxd, j + 1, Wrap(p + parts[j].size))
  }

  /** The first of ps within reach; |ps| if there is none. */
  function FirstNear(ps: seq<uint32>, prev: uint32, maxd: uint32): (k: nat)
    ensures k <= |ps|
    ensures k < |ps| ==> Wrap(ps[k] - prev) <= maxd
    ensures forall i :: 0 <= i < k ==> Wrap(ps[i] - prev) > maxd
  {
    if ps == [] then 0 else
    var k := FirstNear(ps[..|ps| - 1], prev, maxd);
    if k < |ps| - 1 then k else if Wrap(ps[|ps| - 1] - prev) <= maxd then |ps| - 1 else |ps|
  }

  lemma FirstNearIs(ps: seq<uint32>, prev: uint32, maxd: uint32, k: nat)
    requires k <= |ps| && (k < |ps| ==> Wrap(ps[k] - prev) <= maxd)
    requires forall i :: 0 <= i < k ==> Wrap(ps[i] - prev) > maxd
    ensures FirstNear(ps, prev, maxd) == k
  {
  }

  /** The code's way: every long sub-word takes the first position within reach. */
  predicate FirstFit(parts: seq<Part>, min: nat, maxd: uint32, j: nat, prev: uint32)
    requires j <= |parts|
    decreases |parts| - j
  {
    if j == |parts| then true
    else if parts[j].size < min then FirstFit(parts, min, maxd, j + 1, Wrap(prev + 1 + parts[j].size))
    else
      var ps := parts[j].ps;
      var k := FirstNear(ps, prev, maxd);
      k < |ps| && FirstFit(parts, min, maxd, j + 1, Wrap(ps[k] + parts[j].size))
  }

  /** The first long sub-word; |parts| if all are short. */
  function FirstLong(parts: seq<Part>, min: nat): (f: nat)
    ensures f <= |parts|
    ensures f < |parts| ==> parts[f].size >= min
    ensures forall j :: 0 <= j < f ==> parts[j].size < min
  {
    if parts == [] then 0 else
    var f := FirstLong(parts[..|parts| - 1], min);
    if f < |parts| - 1 then f else if parts[|parts| - 1].size >= min then |parts| - 1 else |parts|
  }

  lemma FirstLongIs(parts: seq<Part>, min: nat, f: nat)
    requires f <= |parts| && (f < |parts| ==> parts[f].size >= min) && forall j :: 0 <= j < f ==> parts[j].size < min
    ensures FirstLong(parts, min) == f
  {
  }

  /** The phrase occurs in the document. */
  ghost predicate Occurs(parts: seq<Part>, min: nat, maxd: uint32) {
    var f := FirstLong(parts, min);
    f < |parts| && exists p :: p in parts[f].ps && Chain(parts, min, maxd, f + 1, Wrap(p + parts[f].size))
  }

  /** The search reports the document. */
  predicate Matches(parts: seq<Part>, min: nat, maxd: uint32) {
    var f := FirstLong(parts, min);
    f < |parts| &&
    var ps := parts[f].ps;
    exists i :: 0 <= i < |ps| && FirstFit(parts, min, maxd, f + 1, Wrap(ps[i] + parts[f].size))
  }

  // First fit against all choices

  /** What first fit finds is there. */
  lemma {:induction false} FirstFitSound(parts: seq<Part>, min: nat, maxd: uint32, j: nat, prev: uint32)
    requires j <= |parts| && FirstFit(parts, min, maxd, j, prev)
    ensures Chain(parts, min, maxd, j, prev)
    decreases |parts| - j
  {
    if j < |parts| {
      if parts[j].size < min {
        FirstFitSound(parts, min, maxd, j + 1, Wrap(prev + 1 + parts[j].size));
      } else {
        var ps := parts[j].ps;
        var k := FirstNear(ps, prev, maxd);
        FirstFitSound(parts, min, maxd, j + 1, Wrap(ps[k] + parts[j].size));
        assert ps[k] in ps;
      }
    }
  }

  /** Positions of one word in one document lie more than maxd apart, also around the end of 32 bits. */
  ghost predicate Spaced(ps: seq<uint32>, maxd: uint32) {
    forall i, k :: 0 <= i < k < |ps| ==> ps[i] == ps[k] || Apart(ps[i], ps[k], maxd)
  }

  ghost predicate Apart(a: uint32, b: uint32, maxd: uint32) {
    maxd < a - b < TWO32 - maxd || maxd < b - a < TWO32 - maxd
  }

  ghost predicate LongFrom(parts: seq<Part>, min: nat, j: nat) {
    exists k :: j <= k < |parts| && parts[k].size >= min
  }

  /** A long sub-word with a long one in front of it and a long one behind it. */
  ghost predicate Inner(parts: seq<Part>, min: nat, j: nat) {
    FirstLong(parts, min) < j < |parts| && parts[j].size >= min && LongFrom(parts, min, j + 1)
  }

  ghost predicate InnerSpaced(parts: seq<Part>, min: nat, maxd: uint32) {
    forall j: nat :: Inner(parts, min, j) ==> Spaced(parts[j].ps, maxd)
  }

  lemma {:induction false} OneWithinReach(ps: seq<uint32>, prev: uint32, maxd: uint32, p: uint32)
    requires Spaced(ps, maxd) && p in ps && Wrap(p - prev) <= maxd
    ensures FirstNear(ps, prev, maxd) < |ps| && ps[FirstNear(ps, prev, maxd)] == p
  {
    hide Wrap;
    var k := FirstNear(ps, prev, maxd);
    var i :| 0 <= i < |ps| && ps[i] == p;
    assert k <= i;
    WrapDistance(ps[k], prev);
    WrapDistance(p, prev);
  }

  lemma WrapDistance(a: uint32, b: uint32)
    ensures Wrap(a - b) == if a >= b then a - b else a - b + TWO32
  {
  }

  /** Short sub-words fit anywhere. */
  lemma {:induction false} ShortRest(parts: seq<Part>, min: nat, maxd: uint32, j: nat, prev: uint32)
    requires j <= |parts| && !LongFrom(parts, min, j)
    ensures FirstFit(parts, min, maxd, j, prev)
    decreases |parts| - j
  {
    hide Wrap;
    if j < |parts| {
      assert parts[j].size < min;
      ShortRest(parts, min, maxd, j + 1, Wrap(prev + 1 + parts[j].size));
    }
  }

  /** With spaced positions first fit loses nothing. For the last long sub-word any position within reach will do. */
  lemma {:induction false} FirstFitComplete(parts: seq<Part>, min: nat, maxd: uint32, j: nat, prev: uint32)
    requires FirstLong(parts, min) < j <= |parts| && InnerSpaced(parts, min, maxd) && Chain(parts, min, maxd, j, prev)
    ensures FirstFit(parts, min, maxd, j, prev)
    decreases |parts| - j
  {
    hide FirstNear, Spaced, FirstLong, Wrap;
    if j < |parts| {
      if parts[j].size < min {
        FirstFitComplete(parts, min, maxd, j + 1, Wrap(prev + 1 + parts[j].size));
      } else {
        var ps := parts[j].ps;
        var p :| p in ps && Wrap(p - prev) <= maxd && Chain(parts, min, maxd, j + 1, Wrap(p + parts[j].size));
        if LongFrom(parts, min, j + 1) {
          assert Inner(parts, min, j);
          OneWithinReach(ps, prev, maxd, p);
          FirstFitComplete(parts, min, maxd, j + 1, Wrap(p + parts[j].size));
        } else {
          var k := FirstNear(ps, prev, maxd);
          assert k < |ps|;
          ShortRest(parts, min, maxd, j + 1, Wrap(ps[k] + parts[j].size));
        }
      }
    }
  }

  ghost predicate Exact(parts: seq<Part>, min: nat, maxd: uint32) {
    Matches(parts, min, maxd) <==> Occurs(parts, min, maxd)
  }

  /** Phrase search reports only documents with the phrase, and all of them if the inner sub-words are spaced. */
  lemma {:induction false} SearchExact(parts: seq<Part>, min: nat, maxd: uint32)
    ensures Matches(parts, min, maxd) ==> Occurs(parts, min, maxd)
    ensures InnerSpaced(parts, min, maxd) ==> Exact(parts, min, maxd)
  {
    hide FirstNear, InnerSpaced, FirstLong, Chain, FirstFit, Wrap;
    var f := FirstLong(parts, min);
    if f < |parts| {
      var ps := parts[f].ps;
      forall i | 0 <= i < |ps| && FirstFit(parts, min, maxd, f + 1, Wrap(ps[i] + parts[f].size))
        ensures ps[i] in ps && Chain(parts, min, maxd, f + 1, Wrap(ps[i] + parts[f].size))
      {
        FirstFitSound(parts, min, maxd, f + 1, Wrap(ps[i] + parts[f].size));
      }
      if InnerSpaced(parts, min, maxd) && Occurs(parts, min, maxd) {
        var p :| p in ps && Chain(parts, min, maxd, f + 1, Wrap(p + parts[f].size));
        var i :| 0 <= i < |ps| && ps[i] == p;
        FirstFitComplete(parts, min, maxd, f + 1, Wrap(p + parts[f].size));
      }
    }
  }

  /** So a phrase of at most two long sub-words is never missed. */
  lemma {:induction false} TwoLongExact(parts: seq<Part>, min: nat, maxd: uint32, k: nat)
    requires forall j :: 0 <= j < |parts| && parts[j].size >= min ==> j == FirstLong(parts, min) || j == k
    ensures Exact(parts, min, maxd)
  {
    hide Exact, FirstLong;
    SearchExact(parts, min, maxd);
  }

  // Spacing is needed

  /** Two positions too close to each other: some running end makes first fit take one that does not lead to
      `next`, although the other one does. */
  lemma {:induction false} TwoWithinReach(ps: seq<uint32>, maxd: uint32) returns (prev: uint32, next: uint32, q: uint32)
    requires !Spaced(ps, maxd) && 2 * maxd < TWO32
    ensures q in ps && Wrap(q - prev) <= maxd && Wrap(next - q) <= maxd
    ensures var k := FirstNear(ps, prev, maxd); k < |ps| && Wrap(next - ps[k]) > maxd
  {
    hide Wrap, FirstNear, Apart;
    var i, j :| 0 <= i < j < |ps| && ps[i] != ps[j] && !Apart(ps[i], ps[j], maxd);
    var b;
    prev, b := BothWithinReach(ps[i], ps[j], maxd);
    var k := FirstNear(ps, prev, maxd);
    assert b in ps;
    q := if ps[k] == prev then b else prev;
    next := NextOnlyFrom(prev, maxd, ps[k], q);
  }

  lemma BothWithinReach(a: uint32, b: uint32, maxd: uint32) returns (prev: uint32, other: uint32)
    requires a != b && !Apart(a, b, maxd)
    ensures (prev == a && other == b) || (prev == b && other == a)
    ensures Wrap(prev - prev) == 0 && Wrap(other - prev) <= maxd
  {
    WrapDistance(a, b);
    WrapDistance(b, a);
    if Wrap(b - a) <= maxd { return a, b; } else { return b, a; }
  }

  lemma NextOnlyFrom(prev: uint32, maxd: uint32, r: uint32, q: uint32) returns (next: uint32)
    requires 2 * maxd < TWO32 && r != q && Wrap(r - prev) <= maxd && Wrap(q - prev) <= maxd
    ensures Wrap(next - q) <= maxd && Wrap(next - r) > maxd
  {
    WrapDistance(r, prev);
    WrapDistance(q, prev);
    next := if Wrap(r - prev) < Wrap(q - prev) then Wrap(q + maxd) else q;
  }

  /** The running end in front of sub-word k if every long sub-word starts where the one before it ends. */
  function Start(parts: seq<Part>, min: nat, k: nat): nat
    requires k <= |parts|
  {
    if k == 0 then 0 else
    Start(parts, min, k - 1) + parts[k - 1].size + if parts[k - 1].size < min then 1 else 0
  }

  /** Sub-word k has one position, at its place in a line of sub-words from c on. */
  ghost predicate LinedAt(parts: seq<Part>, min: nat, k: nat, c: int)
    requires k < |parts|
  {
    parts[k].ps == [Wrap(c + Start(parts, min, k))]
  }

  /** From a running end on line d, a sub-word on line c is taken if c is at most maxd behind d. */
  lemma {:induction false} LineStep(parts: seq<Part>, min: nat, maxd: uint32, k: nat, c: int, d: int)
    requires k < |parts| && LinedAt(parts, min, k, c)
    ensures var e := Wrap(d + Start(parts, min, k));
            if parts[k].size < min then
              && FirstFit(parts, min, maxd, k, e) ==
                   FirstFit(parts, min, maxd, k + 1, Wrap(d + Start(parts, min, k + 1)))
              && Chain(parts, min, maxd, k, e) == Chain(parts, min, maxd, k + 1, Wrap(d + Start(parts, min, k + 1)))
            else
              var next := Wrap(c + Start(parts, min, k + 1));
              && FirstFit(parts, min, maxd, k, e) == (Wrap(c - d) <= maxd && FirstFit(parts, min, maxd, k + 1, next))
              && Chain(parts, min, maxd, k, e) == (Wrap(c - d) <= maxd && Chain(parts, min, maxd, k + 1, next))
  {
    hide Wrap, FirstNear;
    var s := Start(parts, min, k);
    var e: int := Wrap(d + s);
    if parts[k].size < min {
      WrapSum(d + s, 1 + parts[k].size);
      assert e + 1 + parts[k].size == e + (1 + parts[k].size);
    } else {
      var p: int := Wrap(c + s);
      WrapSum(c + s, d + s);
      WrapSum(c + s, parts[k].size);
      assert Wrap(p - e) == Wrap(c - d) by { assert (c + s) - (d + s) == c - d; }
      assert parts[k].ps == [p];
      assert p in parts[k].ps;
      FirstNearIs([p], e, maxd, if Wrap(p - e) <= maxd then 0 else 1);
    }
  }

  ghost predicate Lined(parts: seq<Part>, min: nat, from: nat, end: nat, c: int) {
    end <= |parts| && forall k :: from <= k < end ==> LinedAt(parts, min, k, c)
  }

  /** Along one line nothing is decided. */
  lemma {:induction false} LineRuns(parts: seq<Part>, min: nat, maxd: uint32, k: nat, end: nat, c: int)
    requires k <= end && Lined(parts, min, k, end, c)
    ensures var e, e' := Wrap(c + Start(parts, min, k)), Wrap(c + Start(parts, min, end));
            && FirstFit(parts, min, maxd, k, e) == FirstFit(parts, min, maxd, end, e')
            && Chain(parts, min, maxd, k, e) == Chain(parts, min, maxd, end, e')
    decreases end - k
  {
    hide Start, FirstFit, Chain, Wrap;
    if k < end {
      LineStep(parts, min, maxd, k, c, c);
      WrapSmall(0);
      assert c - c == 0;
      LineRuns(parts, min, maxd, k + 1, end, c);
    }
  }

  /** From another line, the first long sub-word decides. */
  lemma {:induction false} LineReached(parts: seq<Part>, min: nat, maxd: uint32, k: nat, c: int, d: int)
    requires k <= |parts| && Lined(parts, min, k, |parts|, c) && LongFrom(parts, min, k)
    ensures var e := Wrap(d + Start(parts, min, k));
            && (FirstFit(parts, min, maxd, k, e) <==> Wrap(c - d) <= maxd)
            && (Chain(parts, min, maxd, k, e) <==> Wrap(c - d) <= maxd)
    decreases |parts| - k
  {
    hide Start, Wrap;
    LineStep(parts, min, maxd, k, c, d);
    if parts[k].size < min {
      LineReached(parts, min, maxd, k + 1, c, d);
    } else {
      LineRuns(parts, min, maxd, k + 1, |parts|, c);
    }
  }

  /** The phrase qs differs from parts only in the positions of sub-words other than j, which leave nothing to choose
      wrongly. */
  ghost predicate Varied(parts: seq<Part>, qs: seq<Part>, min: nat, maxd: uint32, j: nat)
    requires j < |parts|
  {
    && |qs| == |parts| && qs[j] == parts[j]
    && (forall k :: 0 <= k < |parts| ==> qs[k].size == parts[k].size)
    && (forall k: nat :: k != j && Inner(qs, min, k) ==> Spaced(qs[k].ps, maxd))
  }

  lemma {:induction false} SameInner(parts: seq<Part>, qs: seq<Part>, min: nat, j: nat)
    requires |qs| == |parts| && forall k :: 0 <= k < |parts| ==> qs[k].size == parts[k].size
    requires Inner(parts, min, j)
    ensures Inner(qs, min, j) && FirstLong(qs, min) == FirstLong(parts, min)
  {
    hide FirstLong;
    FirstLongIs(qs, min, FirstLong(parts, min));
    var k :| j + 1 <= k < |parts| && parts[k].size >= min;
    assert qs[k].size >= min;
  }

  /** The sub-words in front of j on line c, those behind it on line d. */
  function TwoLines(parts: seq<Part>, min: nat, j: nat, c: int, d: int): (qs: seq<Part>)
    ensures |qs| == |parts|
  {
    seq(|parts|, k requires 0 <= k < |parts| =>
      if k == j then parts[k] else Part(parts[k].size, [Wrap((if k < j then c else d) + Start(parts, min, k))]))
  }

  lemma {:induction false} SameStart(parts: seq<Part>, qs: seq<Part>, min: nat, k: nat)
    requires |qs| == |parts| && (forall i :: 0 <= i < |parts| ==> qs[i].size == parts[i].size) && k <= |parts|
    ensures Start(qs, min, k) == Start(parts, min, k)
  {
    if k > 0 {
      SameStart(parts, qs, min, k - 1);
    }
  }

  lemma {:induction false} TwoLinesLined(parts: seq<Part>, min: nat, j: nat, c: int, d: int)
    requires j < |parts|
    ensures var qs := TwoLines(parts, min, j, c, d); Lined(qs, min, 0, j, c) && Lined(qs, min, j + 1, |qs|, d)
  {
    hide Wrap, Start;
    var qs := TwoLines(parts, min, j, c, d);
    forall k | 0 <= k < j ensures LinedAt(qs, min, k, c) { SameStart(parts, qs, min, k); }
    forall k | j < k < |qs| ensures LinedAt(qs, min, k, d) { SameStart(parts, qs, min, k); }
  }

  /** Sub-word j between two lines: its first position within reach decides for the search, any position for the
      phrase. */
  lemma {:induction false} BetweenLines(qs: seq<Part>, min: nat, maxd: uint32, j: nat, c: int, d: int)
    requires Inner(qs, min, j) && Lined(qs, min, 0, j, c) && Lined(qs, min, j + 1, |qs|, d)
    ensures var s, ps := Start(qs, min, j), qs[j].ps;
            var prev := Wrap(c + s);
            var k := FirstNear(ps, prev, maxd);
            && (Matches(qs, min, maxd) <==> k < |ps| && Wrap(d + s - ps[k]) <= maxd)
            && (Occurs(qs, min, maxd) <==> exists q :: q in ps && Wrap(q - prev) <= maxd && Wrap(d + s - q) <= maxd)
  {
    hide FirstLong, FirstNear, Wrap, Start;
    var f, s, ps := FirstLong(qs, min), Start(qs, min, j), qs[j].ps;
    var prev := Wrap(c + s);
    assert LinedAt(qs, min, f, c);
    assert Start(qs, min, f + 1) == Start(qs, min, f) + qs[f].size && Start(qs, min, j + 1) == s + qs[j].size by {
      NextStart(qs, min, f);
      NextStart(qs, min, j);
    }
    WrapSum(c + Start(qs, min, f), qs[f].size);
    LineRuns(qs, min, maxd, f + 1, j, c);
    forall q | q in ps
      ensures FirstFit(qs, min, maxd, j + 1, Wrap(q + qs[j].size)) <==> Wrap(d + s - q) <= maxd
      ensures Chain(qs, min, maxd, j + 1, Wrap(q + qs[j].size)) <==> Wrap(d + s - q) <= maxd
    {
      LineReached(qs, min, maxd, j + 1, d, q - s);
      assert q - s + (s + qs[j].size) == q + qs[j].size && d - (q - s) == d + s - q;
    }
    var start := Wrap(qs[f].ps[0] + qs[f].size);
    assert Matches(qs, min, maxd) <==> FirstFit(qs, min, maxd, f + 1, start);
    var k := FirstNear(ps, prev, maxd);
    assert k < |ps| ==> ps[k] in ps;
    assert Occurs(qs, min, maxd) <==> Chain(qs, min, maxd, f + 1, start) by { assert qs[f].ps[0] in qs[f].ps; }
  }

  lemma NextStart(parts: seq<Part>, min: nat, k: nat)
    requires k < |parts| && parts[k].size >= min
    ensures Start(parts, min, k + 1) == Start(parts, min, k) + parts[k].size
  {
  }

  /** Positions too close to each other lose a match for some positions of the other sub-words. */
  lemma {:induction false} CloseMisses(parts: seq<Part>, min: nat, maxd: uint32, j: nat) returns (qs: seq<Part>)
    requires Inner(parts, min, j) && 2 * maxd < TWO32 && !Spaced(parts[j].ps, maxd)
    ensures Varied(parts, qs, min, maxd, j) && !Exact(qs, min, maxd)
  {
    hide FirstLong, FirstNear, Wrap, Start, Occurs, Matches, LongFrom;
    var prev, next, q := TwoWithinReach(parts[j].ps, maxd);
    var s := Start(parts, min, j);
    qs := TwoLines(parts, min, j, prev - s, next - s);
    SameInner(parts, qs, min, j);
    SameStart(parts, qs, min, j);
    TwoLinesLined(parts, min, j, prev - s, next - s);
    WrapSmall(prev);
    BetweenLines(qs, min, maxd, j, prev - s, next - s);
    assert prev - s + s == prev && next - s + s == next;
  }

  lemma InnerInside(parts: seq<Part>, min: nat, j: nat)
    requires Inner(parts, min, j)
    ensures j < |parts|
  {
  }

  /** Exactly when first fit loses nothing: for a quoted phrase, whatever the other sub-words' positions are,
      the positions of every inner sub-word have to be spaced. */
  lemma {:induction false} SpacingExactly(parts: seq<Part>, min: nat, maxd: uint32)
    requires 2 * maxd < TWO32
    ensures InnerSpaced(parts, min, maxd) <==>
            forall j: nat, qs :: Inner(parts, min, j) && Varied(parts, qs, min, maxd, j) ==> Exact(qs, min, maxd)
  {
    hide Exact, Spaced, Inner;
    forall j: nat, qs | InnerSpaced(parts, min, maxd) && Inner(parts, min, j) && j < |parts| &&
      Varied(parts, qs, min, maxd, j)
      ensures Exact(qs, min, maxd)
    {
      SearchExact(qs, min, maxd);
    }
    forall j: nat | Inner(parts, min, j)
      ensures j < |parts|
      ensures Spaced(parts[j].ps, maxd) || exists qs :: Varied(parts, qs, min, maxd, j) && !Exact(qs, min, maxd)
    {
      InnerInside(parts, min, j);
      if !Spaced(parts[j].ps, maxd) {
        var qs := CloseMisses(parts, min, maxd, j);
      }
    }
  }

  // Far below 2^32 the running end is a plain sum

  function Length(parts: seq<Part>, j: nat): nat
    requires j <= |parts|
  {
    if j == 0 then 0 else Length(parts, j - 1) + 1 + parts[j - 1].size
  }

  lemma {:induction false} LengthRises(parts: seq<Part>, j: nat, k: nat)
    requires j <= k <= |parts|
    ensures Length(parts, j) <= Length(parts, k)
    decreases k
  {
    if j < k {
      LengthRises(parts, j, k - 1);
    }
  }

  /** As Chain, with unbounded numbers: each long sub-word 0 to maxd bytes behind the running end. */
  ghost predicate PlainChain(parts: seq<Part>, min: nat, maxd: uint32, j: nat, prev: nat)
    requires j <= |parts|
    decreases |parts| - j
  {
    if j == |parts| then true
    else if parts[j].size < min then PlainChain(parts, min, maxd, j + 1, prev + 1 + parts[j].size)
    else exists p :: p in parts[j].ps && prev <= p <= prev + maxd &&
                     PlainChain(parts, min, maxd, j + 1, p + parts[j].size)
  }

  /** All positions are so small that no running end reaches 2^32 - maxd. */
  ghost predicate Small(parts: seq<Part>, maxd: uint32, bound: nat) {
    && bound + Length(parts, |parts|) + maxd < TWO32
    && forall j, p :: 0 <= j < |parts| && p in parts[j].ps ==> p < bound
  }

  lemma {:induction false} ChainIsPlain(parts: seq<Part>, min: nat, maxd: uint32, j: nat, prev: uint32, bound: nat)
    requires j <= |parts| && Small(parts, maxd, bound) && prev <= bound + Length(parts, j)
    ensures Chain(parts, min, maxd, j, prev) <==> PlainChain(parts, min, maxd, j, prev)
    decreases |parts| - j
  {
    hide Wrap;
    if j < |parts| {
      LengthRises(parts, j + 1, |parts|);
      if parts[j].size < min {
        WrapSmall(prev + 1 + parts[j].size);
        ChainIsPlain(parts, min, maxd, j + 1, prev + 1 + parts[j].size, bound);
      } else {
        forall p | p in parts[j].ps
          ensures Wrap(p - prev) <= maxd <==> prev <= p <= prev + maxd
          ensures Chain(parts, min, maxd, j + 1, Wrap(p + parts[j].size)) <==>
                  PlainChain(parts, min, maxd, j + 1, p + parts[j].size)
        {
          assert p < bound;
          WrapDistance(p, prev);
          WrapSmall(p + parts[j].size);
          ChainIsPlain(parts, min, maxd, j + 1, p + parts[j].size, bound);
        }
      }
    }
  }

  // Near: any distance

  /** Every long sub-word from j on is in the document. */
  ghost predicate AllPresent(parts: seq<Part>, min: nat, j: nat)
    requires j <= |parts|
  {
    forall k :: j <= k < |parts| && parts[k].size >= min ==> parts[k].ps != []
  }

  lemma {:induction false} NearFit(parts: seq<Part>, min: nat, j: nat, prev: uint32)
    requires j <= |parts|
    ensures FirstFit(parts, min, TWO32 - 1, j, prev) <==> AllPresent(parts, min, j)
    decreases |parts| - j
  {
    if j < |parts| {
      if parts[j].size < min {
        NearFit(parts, min, j + 1, Wrap(prev + 1 + parts[j].size));
      } else {
        var ps := parts[j].ps;
        if ps != [] {
          FirstNearIs(ps, prev, TWO32 - 1, 0);
          NearFit(parts, min, j + 1, Wrap(ps[0] + parts[j].size));
        }
      }
    }
  }

  lemma {:induction false} ChainPresent(parts: seq<Part>, min: nat, maxd: uint32, j: nat, prev: uint32)
    requires j <= |parts| && Chain(parts, min, maxd, j, prev)
    ensures AllPresent(parts, min, j)
    decreases |parts| - j
  {
    hide Wrap;
    if j < |parts| {
      if parts[j].size < min {
        ChainPresent(parts, min, maxd, j + 1, Wrap(prev + 1 + parts[j].size));
      } else {
        var p :| p in parts[j].ps && Wrap(p - prev) <= maxd && Chain(parts, min, maxd, j + 1, Wrap(p + parts[j].size));
        ChainPresent(parts, min, maxd, j + 1, Wrap(p + parts[j].size));
      }
    }
  }

  /** Without a distance limit a document matches exactly if every long sub-word occurs in it; nothing is missed. */
  lemma {:induction false} NearExact(parts: seq<Part>, min: nat)
    requires FirstLong(parts, min) < |parts|
    ensures Matches(parts, min, TWO32 - 1) <==> AllPresent(parts, min, 0)
    ensures Exact(parts, min, TWO32 - 1)
  {
    hide FirstLong, FirstFit, Chain, Wrap;
    var f := FirstLong(parts, min);
    var ps := parts[f].ps;
    forall i | 0 <= i < |ps|
      ensures FirstFit(parts, min, TWO32 - 1, f + 1, Wrap(ps[i] + parts[f].size)) <==> AllPresent(parts, min, f + 1)
    {
      NearFit(parts, min, f + 1, Wrap(ps[i] + parts[f].size));
    }
    if AllPresent(parts, min, 0) {
      assert ps != [];
      assert FirstFit(parts, min, TWO32 - 1, f + 1, Wrap(ps[0] + parts[f].size));
    }
    SearchExact(parts, min, TWO32 - 1);
    if Occurs(parts, min, TWO32 - 1) {
      var p :| p in ps && Chain(parts, min, TWO32 - 1, f + 1, Wrap(p + parts[f].size));
      ChainPresent(parts, min, TWO32 - 1, f + 1, Wrap(p + parts[f].size));
    }
  }
}
