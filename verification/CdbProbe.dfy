/** Open addressing with linear probing, as `cdb_make_finish` fills one hash table
    and `cdb_findnext` walks it. A slot is a (hash, position) pair and is free
    exactly when its position is 0. */
module CdbProbe {
  import opened Words

  datatype Hp = Hp(h: uint32, p: uint32)

  const EMPTY := Hp(0, 0)

  function Home(h: uint32, tables: nat, len: nat): (w: nat)
    requires tables > 0 && len > 0
    ensures w < len
  {
    h / tables % len
  }

  /** The slot reached from slot w after d steps around a table of len slots. */
  function Slot(w: nat, d: nat, len: nat): (s: nat)
    requires w < len && d <= len
    ensures s < len
  {
    if w + d < len then w + d else w + d - len
  }

  /** How many steps lead from slot w to slot s. */
  function Dist(w: nat, s: nat, len: nat): (d: nat)
    requires w < len && s < len
    ensures d < len && Slot(w, d, len) == s
  {
    if w <= s then s - w else s + len - w
  }

  /** The least number of steps, at least d, that leads from w to a free slot; len if none does. */
  function ProbeFrom(table: seq<Hp>, w: nat, d: nat): (r: nat)
    requires w < |table| && d <= |table|
    ensures d <= r <= |table|
    ensures r < |table| ==> table[Slot(w, r, |table|)].p == 0
    ensures forall e :: d <= e < r ==> table[Slot(w, e, |table|)].p != 0
    decreases |table| - d
  {
    if d == |table| || table[Slot(w, d, |table|)].p == 0 then d else ProbeFrom(table, w, d + 1)
  }

  function Place(table: seq<Hp>, e: Hp, tables: nat): (t: seq<Hp>)
    requires tables > 0
    ensures |t| == |table|
  {
    if table == [] then table else
    var w := Home(e.h, tables, |table|);
    var d := ProbeFrom(table, w, 0);
    if d < |table| then table[Slot(w, d, |table|) := e] else table
  }

  /** len free slots with the entries of bucket inserted one by one. */
  function Fill(len: nat, bucket: seq<Hp>, tables: nat): (t: seq<Hp>)
    requires tables > 0
    ensures |t| == len
  {
    if bucket == [] then seq(len, i => EMPTY)
    else Place(Fill(len, bucket[..|bucket| - 1], tables), bucket[|bucket| - 1], tables)
  }

  /** Where Fill puts each entry. */
  function Spots(len: nat, bucket: seq<Hp>, tables: nat): (at: seq<nat>)
    requires tables > 0 && len > 0
    ensures |at| == |bucket|
  {
    if bucket == [] then [] else
    var front, e := bucket[..|bucket| - 1], bucket[|bucket| - 1];
    var w := Home(e.h, tables, len);
    Spots(len, front, tables) + [Slot(w, ProbeFrom(Fill(len, front, tables), w, 0), len)]
  }

  ghost predicate Distinct(at: seq<nat>) {
    forall i, j :: 0 <= i < j < |at| ==> at[i] != at[j]
  }

  /** at[i] holds bucket[i], and nothing else is in the table. */
  ghost predicate Holds(table: seq<Hp>, bucket: seq<Hp>, at: seq<nat>) {
    && |at| == |bucket|
    && Distinct(at)
    && (forall i :: 0 <= i < |at| ==> at[i] < |table| && table[at[i]] == bucket[i])
    && (forall s :: 0 <= s < |table| && table[s].p != 0 ==> s in at)
  }

  /** Every slot between an entry's home and the entry belongs to an earlier entry. */
  ghost predicate Reached(len: nat, bucket: seq<Hp>, tables: nat, at: seq<nat>)
    requires tables > 0 && len > 0
    requires |at| == |bucket| && forall i :: 0 <= i < |at| ==> at[i] < len
  {
    forall i, d :: 0 <= i < |at| && 0 <= d < Steps(len, bucket, tables, at, i) ==>
      Slot(Home(bucket[i].h, tables, len), d, len) in at[..i]
  }

  /** How far from its home entry i sits. */
  ghost function Steps(len: nat, bucket: seq<Hp>, tables: nat, at: seq<nat>, i: nat): (d: nat)
    requires tables > 0 && len > 0
    requires |at| == |bucket| && i < |at| && at[i] < len
    ensures d < len
  {
    Dist(Home(bucket[i].h, tables, len), at[i], len)
  }

  /** Fewer entries than slots leave a free slot. */
  lemma {:induction false} SomeSlotFree(at: seq<nat>, len: nat) returns (s: nat)
    requires |at| < len
    ensures s < len && s !in at
  {
    if len - 1 !in at {
      s := len - 1;
    } else {
      var k :| 0 <= k < |at| && at[k] == len - 1;
      s := SomeSlotFree(at[..k] + at[k + 1..], len - 1);
      assert at == at[..k] + [len - 1] + at[k + 1..];
    }
  }

  /** The probe-table invariant, kept by every insertion while the table has a free slot. */
  lemma {:induction false} FillInvariant(len: nat, bucket: seq<Hp>, tables: nat)
    requires tables > 0 && |bucket| < len
    requires forall i :: 0 <= i < |bucket| ==> bucket[i].p != 0
    ensures Holds(Fill(len, bucket, tables), bucket, Spots(len, bucket, tables))
    ensures Reached(len, bucket, tables, Spots(len, bucket, tables))
  {
    hide Holds, Reached, Place, Home;
    if bucket == [] {
      EmptyInvariant(len, tables);
    } else {
      var n := |bucket| - 1;
      FillInvariant(len, bucket[..n], tables);
      FillStep(len, bucket[..n], bucket[n], tables);
      assert bucket == bucket[..n] + [bucket[n]];
    }
  }

  lemma EmptyInvariant(len: nat, tables: nat)
    requires tables > 0 && len > 0
    ensures Holds(Fill(len, [], tables), [], Spots(len, [], tables)) && Reached(len, [], tables, Spots(len, [], tables))
  {
  }

  lemma {:induction false} FillStep(len: nat, front: seq<Hp>, e: Hp, tables: nat)
    requires tables > 0 && |front| + 1 < len
    requires forall i :: 0 <= i < |front| ==> front[i].p != 0
    requires Holds(Fill(len, front, tables), front, Spots(len, front, tables))
    requires Reached(len, front, tables, Spots(len, front, tables))
    ensures Holds(Fill(len, front + [e], tables), front + [e], Spots(len, front + [e], tables))
    ensures Reached(len, front + [e], tables, Spots(len, front + [e], tables))
  {
    hide Home, Reached;
    var table, at, w := Fill(len, front, tables), Spots(len, front, tables), Home(e.h, tables, len);
    var d := ProbeFrom(table, w, 0);
    assert d < len by {
      var s := SomeSlotFree(at, len);
      assert table[Slot(w, Dist(w, s, len), len)].p == 0;
    }
    PlaceHolds(front, e, table, at, Slot(w, d, len));
    PlaceReached(len, front, e, tables, table, at, d);
    assert (front + [e])[..|front|] == front;
  }

  /** One insertion: the first free slot on the path keeps the table exact. */
  lemma PlaceHolds(front: seq<Hp>, e: Hp, table: seq<Hp>, at: seq<nat>, s: nat)
    requires forall i :: 0 <= i < |front| ==> front[i].p != 0
    requires Holds(table, front, at)
    requires s < |table| && table[s].p == 0
    ensures Holds(table[s := e], front + [e], at + [s])
  {
    assert forall i :: 0 <= i < |at| ==> table[at[i]].p != 0;
    assert s !in at;
    var at', table' := at + [s], table[s := e];
    forall x | 0 <= x < |table'| && table'[x].p != 0
      ensures x in at'
    {
      assert x in at || at'[|at|] == x;
    }
  }

  /** One insertion: all slots passed over belong to earlier entries. */
  lemma PlaceReached(len: nat, front: seq<Hp>, e: Hp, tables: nat, table: seq<Hp>, at: seq<nat>, d: nat)
    requires tables > 0 && |table| == len > 0
    requires Holds(table, front, at) && Reached(len, front, tables, at)
    requires d == ProbeFrom(table, Home(e.h, tables, len), 0) < len
    ensures Reached(len, front + [e], tables, at + [Slot(Home(e.h, tables, len), d, len)])
  {
    var w := Home(e.h, tables, len);
    var at', all := at + [Slot(w, d, len)], front + [e];
    forall i, d' | 0 <= i < |at'| && 0 <= d' < Steps(len, all, tables, at', i)
      ensures Slot(Home(all[i].h, tables, len), d', len) in at'[..i]
    {
      if i < |at| {
        assert at'[..i] == at[..i];
        assert Steps(len, all, tables, at', i) == Steps(len, front, tables, at, i);
      } else {
        assert at'[..i] == at;
        assert table[Slot(w, d', len)].p != 0;
      }
    }
  }

  lemma HomeIs(h: uint32, tables: nat, len: nat)
    requires tables > 0 && len > 0
    ensures Home(h, tables, len) == h / tables % len
  {
  }

  lemma DistIs(w: nat, s: nat, len: nat)
    requires w < len && s < len
    ensures Dist(w, s, len) == (s + len - w) % len
  {
  }

  /** Of the slots that no earlier entry holds, that of entry k comes first cyclically from home on. */
  ghost predicate Foremost(at: seq<nat>, k: nat, home: nat, len: nat)
    requires k < |at| && home < len
  {
    forall s :: 0 <= s < len && s !in at[..k] ==> (at[k] + len - home) % len <= (s + len - home) % len
  }

  lemma {:induction false} ReachedForemost(at: seq<nat>, k: nat, home: nat, len: nat)
    requires k < |at| && home < len && at[k] < len
    requires forall d :: 0 <= d < Dist(home, at[k], len) ==> Slot(home, d, len) in at[..k]
    ensures Foremost(at, k, home, len) && (k == 0 ==> at[k] == home)
  {
    hide Dist, Slot;
    var steps := Dist(home, at[k], len);
    DistIs(home, at[k], len);
    forall s | 0 <= s < len && s !in at[..k]
      ensures steps <= (s + len - home) % len
    {
      DistIs(home, s, len);
      var d := Dist(home, s, len);
      assert Slot(home, d, len) == s;
    }
    if k == 0 {
      FirstAtHome(at[0], home, len, at[..k]);
    }
  }

  lemma FirstAtHome(s: nat, home: nat, len: nat, held: seq<nat>)
    requires held == [] && home < len && s < len
    requires forall d :: 0 <= d < Dist(home, s, len) ==> Slot(home, d, len) in held
    ensures s == home
  {
    assert Slot(home, 0, len) == home;
  }

  /** Where entry k lies: in the slot, of those no earlier entry holds, that comes first cyclically
      from its home on. */
  lemma {:induction false} EntryPlace(len: nat, bucket: seq<Hp>, tables: nat, at: seq<nat>, k: nat)
    requires tables > 0 && len > 0 && k < |bucket|
    requires |at| == |bucket| && (forall i :: 0 <= i < |at| ==> at[i] < len) && Distinct(at)
    requires Reached(len, bucket, tables, at)
    ensures at[k] !in at[..k] && Foremost(at, k, Home(bucket[k].h, tables, len), len)
    ensures k == 0 ==> at[k] == Home(bucket[k].h, tables, len)
  {
    var home := Home(bucket[k].h, tables, len);
    hide Home, Dist, Slot, Foremost;
    assert Steps(len, bucket, tables, at, k) == Dist(home, at[k], len);
    ReachedForemost(at, k, home, len);
  }

  /** With 256 tables the search starts at the hash shifted right by 8. */
  lemma OrigHome(u: uint32, len: nat)
    requires len > 0
    ensures Home(u, 256, len) == ShiftRight(u, 8) % len
  {
    assert Pow2(4) == 16;
    ShiftDivides(u, 8);
  }

  /** Entries with one hash sit along their common path in insertion order. */
  lemma EqualHashesInOrder(len: nat, bucket: seq<Hp>, tables: nat, at: seq<nat>, i: nat, j: nat)
    requires tables > 0 && len > 0
    requires |at| == |bucket| && (forall k :: 0 <= k < |at| ==> at[k] < len) && Distinct(at)
    requires Reached(len, bucket, tables, at)
    requires i < j < |bucket| && bucket[i].h == bucket[j].h
    ensures Steps(len, bucket, tables, at, i) < Steps(len, bucket, tables, at, j)
  {
    var w := Home(bucket[i].h, tables, len);
    var di, dj := Steps(len, bucket, tables, at, i), Steps(len, bucket, tables, at, j);
    assert at[i] != at[j] == Slot(w, dj, len);
  }

  /** A walk that meets a free slot has passed every entry it could be looking for. */
  lemma FreeSlotEndsPath(table: seq<Hp>, bucket: seq<Hp>, tables: nat, at: seq<nat>, i: nat, d: nat)
    requires tables > 0 && table != []
    requires forall k :: 0 <= k < |bucket| ==> bucket[k].p != 0
    requires Holds(table, bucket, at) && Reached(|table|, bucket, tables, at)
    requires i < |bucket| && d < |table|
    requires table[Slot(Home(bucket[i].h, tables, |table|), d, |table|)].p == 0
    ensures Steps(|table|, bucket, tables, at, i) < d
  {
    var len := |table|;
    var w := Home(bucket[i].h, tables, len);
    var di := Steps(len, bucket, tables, at, i);
    assert forall k :: 0 <= k < |at| ==> table[at[k]].p != 0;
    assert Slot(w, di, len) == at[i];
  }
}
