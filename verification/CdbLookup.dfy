/** Why probing a finished file finds the records of a key: each record sits at a
    fixed depth on its probe path, records of one key at increasing depths, and the
    path is unbroken up to the last of them. */
module CdbLookup {
  import opened Words
  import opened CdbHash
  import opened CdbProbe
  import opened CdbFormat

  /** The specification of lookup: the indices of the records added under key, in order. */
  function Matches(rs: seq<Record>, key: seq<byte>): (m: seq<nat>)
    ensures |m| <= |rs|
    ensures forall j :: 0 <= j < |m| ==> m[j] < |rs| && rs[m[j]].key == key
  {
    if rs == [] then [] else
    var n := |rs| - 1;
    var m := Matches(rs[..n], key);
    assert forall j :: 0 <= j < |m| ==> rs[..n][m[j]] == rs[m[j]];
    if rs[n].key == key then m + [n] else m
  }

  lemma {:induction false} MatchesRise(rs: seq<Record>, key: seq<byte>, j: nat, k: nat)
    requires j < k < |Matches(rs, key)|
    ensures Matches(rs, key)[j] < Matches(rs, key)[k]
  {
    var n := |rs| - 1;
    if k < |Matches(rs[..n], key)| {
      MatchesRise(rs[..n], key, j, k);
    }
  }

  lemma {:induction false} MatchesComplete(rs: seq<Record>, key: seq<byte>, i: nat)
    requires i < |rs| && rs[i].key == key
    ensures i in Matches(rs, key)
  {
    var n := |rs| - 1;
    if i < n {
      MatchesComplete(rs[..n], key, i);
    } else {
      assert Matches(rs, key)[|Matches(rs, key)| - 1] == i;
    }
  }

  // The table of one hash value

  function HashBucket(tables: nat, rs: seq<Record>, h: uint32): seq<Hp>
    requires Fits(tables, rs)
  {
    Bucket(Entries(tables, rs), tables, TableOf(h, tables))
  }

  function HashSlots(tables: nat, rs: seq<Record>, h: uint32): (slots: seq<Hp>)
    requires Fits(tables, rs)
    ensures |slots| == 2 * |HashBucket(tables, rs, h)|
  {
    TableSlots(Entries(tables, rs), tables, TableOf(h, tables))
  }

  ghost function HashSpots(tables: nat, rs: seq<Record>, h: uint32): (at: seq<nat>)
    requires Fits(tables, rs) && HashBucket(tables, rs, h) != []
    ensures |at| == |HashBucket(tables, rs, h)|
  {
    Spots(2 * |HashBucket(tables, rs, h)|, HashBucket(tables, rs, h), tables)
  }

  /** The probe-table invariant holds in every table of a finished file. */
  lemma {:induction false} TableInvariant(tables: nat, rs: seq<Record>, h: uint32)
    requires Fits(tables, rs) && HashBucket(tables, rs, h) != []
    ensures var b, slots, at := HashBucket(tables, rs, h), HashSlots(tables, rs, h), HashSpots(tables, rs, h);
            && (forall k :: 0 <= k < |b| ==> b[k].p != 0)
            && Holds(slots, b, at)
            && Reached(|slots|, b, tables, at)
  {
    var es, t := Entries(tables, rs), TableOf(h, tables);
    var b := HashBucket(tables, rs, h);
    forall k | 0 <= k < |b|
      ensures b[k].p != 0
    {
      var i := BucketOwner(es, tables, t, k);
      EntriesAt(tables, rs, i);
    }
    FillInvariant(2 * |b|, b, tables);
  }

  /** What the header says about the table of hash h, and that the table lies inside the file. */
  lemma {:induction false} PointerReads(tables: nat, rs: seq<Record>, h: uint32)
    requires Fits(tables, rs)
    ensures var t, f := TableOf(h, tables), Image(tables, rs);
            && 8 * t + 8 <= |f|
            && Unpack(f[8 * t..8 * t + 4]) == TablePos(tables, rs, t)
            && Unpack(f[8 * t + 4..8 * t + 8]) == |HashSlots(tables, rs, h)|
            && TablePos(tables, rs, t) + 8 * |HashSlots(tables, rs, h)| <= |f|
  {
    hide TableOf, Bucket, Fill;
    var t, n := TableOf(h, tables), |HashSlots(tables, rs, h)|;
    ImagePointer(tables, rs, t);
    UnpackPack(TablePos(tables, rs, t));
    UnpackPack(n);
    CountBeforeBound(Entries(tables, rs), tables, t + 1);
  }

  /** No 32-bit sum of the writer or the reader wraps on a database that fits: entry count, record ends,
      table ends. The file is the records plus sixteen bytes for each. */
  lemma {:induction false} NothingWraps(tables: nat, rs: seq<Record>, h: uint32, i: nat)
    requires Fits(tables, rs) && i < |rs|
    ensures |rs| < 0x2000_0000
    ensures |Image(tables, rs)| == Eod(tables, rs) + 16 * |rs|
    ensures PosOf(tables, rs, i) + 8 + |rs[i].key| + |rs[i].data| == PosOf(tables, rs, i + 1) <= Eod(tables, rs) < TWO32
    ensures TablePos(tables, rs, TableOf(h, tables)) + 8 * |HashSlots(tables, rs, h)| <= |Image(tables, rs)| < TWO32
  {
    hide TableOf, Bucket, Fill, Image;
    PointerReads(tables, rs, h);
    ImageRecord(tables, rs, i);
  }

  /** Record i is in the table of its hash, at its rank in the bucket. */
  lemma {:induction false} RecordInBucket(tables: nat, rs: seq<Record>, i: nat)
    requires Fits(tables, rs) && i < |rs|
    ensures var h, k := Hash(rs[i].key), Rank(Entries(tables, rs), tables, i);
            && PosOf(tables, rs, i) < TWO32
            && k < |HashBucket(tables, rs, h)|
            && HashBucket(tables, rs, h)[k] == Hp(h, PosOf(tables, rs, i))
  {
    EntriesAt(tables, rs, i);
    RankPoints(Entries(tables, rs), tables, i);
  }

  /** The slots of the records of record i's table that were added before it. */
  ghost function EarlierSpots(tables: nat, rs: seq<Record>, i: nat): (held: seq<nat>)
    requires Fits(tables, rs) && i < |rs|
    ensures PosOf(tables, rs, i) < TWO32 && |HashSlots(tables, rs, Hash(rs[i].key))| > 0
  {
    RecordInBucket(tables, rs, i);
    HashSpots(tables, rs, Hash(rs[i].key))[..Rank(Entries(tables, rs), tables, i)]
  }

  lemma {:induction false} EntryFound(tables: nat, rs: seq<Record>, i: nat) returns (s: nat)
    requires Fits(tables, rs) && i < |rs|
    ensures s < |HashSlots(tables, rs, Hash(rs[i].key))| && s !in EarlierSpots(tables, rs, i)
    ensures var h := Hash(rs[i].key);
            var len, held := |HashSlots(tables, rs, h)|, EarlierSpots(tables, rs, i);
            && Foremost(held + [s], |held|, Home(h, tables, len), len) && (held == [] ==> s == Home(h, tables, len))
            && Depth(tables, rs, i) == Dist(Home(h, tables, len), s, len)
            && SlotIn(Image(tables, rs), TablePos(tables, rs, TableOf(h, tables)) + 8 * s, Hp(h, PosOf(tables, rs, i)))
  {
    hide Bucket, Fill, Image, Spots, TablePos, Hash, Pack, PosOf, Rank, TableOf, Reached, Entries, Foremost, Home;
    hide SlotIn;
    var h := Hash(rs[i].key);
    RecordInBucket(tables, rs, i);
    TableInvariant(tables, rs, h);
    var b, at, k := HashBucket(tables, rs, h), HashSpots(tables, rs, h), Rank(Entries(tables, rs), tables, i);
    s := at[k];
    EntryPlace(|HashSlots(tables, rs, h)|, b, tables, at, k);
    ForemostPrefix(at, k, Home(h, tables, |HashSlots(tables, rs, h)|), |HashSlots(tables, rs, h)|);
    ImageSlot(tables, rs, TableOf(h, tables), s);
    MetOnce(tables, rs, i, Depth(tables, rs, i));
  }

  /** Where the file holds the entry of record i: behind the tables before its own, in the slot that comes first
      cyclically from (hash / tables) % slots on and that no earlier record of its table holds. */
  lemma {:induction false} EntryLies(tables: nat, rs: seq<Record>, i: nat) returns (s: nat)
    requires Fits(tables, rs) && i < |rs|
    ensures s < |HashSlots(tables, rs, Hash(rs[i].key))| && s !in EarlierSpots(tables, rs, i)
    ensures var len := |HashSlots(tables, rs, Hash(rs[i].key))|;
            var home, held := Hash(rs[i].key) / tables % len, EarlierSpots(tables, rs, i);
            && Foremost(held + [s], |held|, home, len)
            && (held == [] ==> s == home)
            && Depth(tables, rs, i) == (s + len - home) % len
    ensures var f, p := Image(tables, rs), TablePos(tables, rs, Hash(rs[i].key) % tables) + 8 * s;
            p + 8 <= |f| && f[p..p + 4] == Pack(Hash(rs[i].key)) && f[p + 4..p + 8] == Pack(PosOf(tables, rs, i))
  {
    hide Image, TablePos, Hash, Pack, PosOf, TableOf, Foremost, Home, EarlierSpots, HashSlots, Dist, Depth;
    s := EntryFound(tables, rs, i);
    DistIs(Home(Hash(rs[i].key), tables, |HashSlots(tables, rs, Hash(rs[i].key))|), s,
           |HashSlots(tables, rs, Hash(rs[i].key))|);
    TableIs(Hash(rs[i].key), tables);
    HomeIs(Hash(rs[i].key), tables, |HashSlots(tables, rs, Hash(rs[i].key))|);
  }

  lemma ForemostPrefix(at: seq<nat>, k: nat, home: nat, len: nat)
    requires k < |at| && home < len && Foremost(at, k, home, len)
    ensures Foremost(at[..k] + [at[k]], k, home, len)
  {
    var s := at[..k] + [at[k]];
    assert s[..k] == at[..k] && s[k] == at[k];
  }

  /** The slot that probe d of hash h looks at. */
  function Probed(tables: nat, rs: seq<Record>, h: uint32, d: nat): Hp
    requires Fits(tables, rs) && d < 2 * |HashBucket(tables, rs, h)|
  {
    var slots := HashSlots(tables, rs, h);
    slots[Slot(Home(h, tables, |slots|), d, |slots|)]
  }

  /** Probe d of its hash meets record i. */
  ghost predicate MetAt(tables: nat, rs: seq<Record>, i: nat, d: nat)
    requires Fits(tables, rs) && i < |rs|
  {
    var h := Hash(rs[i].key);
    && d < 2 * |HashBucket(tables, rs, h)|
    && Probed(tables, rs, h, d).h == h
    && Probed(tables, rs, h, d).p == PosOf(tables, rs, i)
  }

  /** How far from its home record i was put. */
  ghost function StepsOf(tables: nat, rs: seq<Record>, i: nat): (d: nat)
    requires Fits(tables, rs) && i < |rs|
    ensures d < 2 * |HashBucket(tables, rs, Hash(rs[i].key))|
  {
    var h := Hash(rs[i].key);
    RecordInBucket(tables, rs, i);
    TableInvariant(tables, rs, h);
    var b := HashBucket(tables, rs, h);
    Steps(2 * |b|, b, tables, HashSpots(tables, rs, h), Rank(Entries(tables, rs), tables, i))
  }

  /** A probed slot in use belongs to one record, put there by its own probing. */
  lemma {:induction false} SlotOwner(tables: nat, rs: seq<Record>, h: uint32, d: nat) returns (i: nat)
    requires Fits(tables, rs) && d < 2 * |HashBucket(tables, rs, h)|
    requires Probed(tables, rs, h, d).p != 0
    ensures i < |rs|
    ensures Probed(tables, rs, h, d).h == Hash(rs[i].key)
    ensures Probed(tables, rs, h, d).p == PosOf(tables, rs, i)
    ensures Hash(rs[i].key) == h ==> StepsOf(tables, rs, i) == d
  {
    TableInvariant(tables, rs, h);
    var es, b, at := Entries(tables, rs), HashBucket(tables, rs, h), HashSpots(tables, rs, h);
    var s := Slot(Home(h, tables, 2 * |b|), d, 2 * |b|);
    assert s in at;
    var k :| 0 <= k < |at| && at[k] == s;
    i := BucketOwner(es, tables, TableOf(h, tables), k);
    EntriesAt(tables, rs, i);
  }

  lemma {:induction false} StepsOfMeets(tables: nat, rs: seq<Record>, i: nat)
    requires Fits(tables, rs) && i < |rs|
    ensures MetAt(tables, rs, i, StepsOf(tables, rs, i))
  {
    hide TableOf, Bucket, Fill, Home;
    RecordInBucket(tables, rs, i);
    TableInvariant(tables, rs, Hash(rs[i].key));
  }

  /** The one probe that meets record i. */
  ghost function Depth(tables: nat, rs: seq<Record>, i: nat): (d: nat)
    requires Fits(tables, rs) && i < |rs|
    ensures MetAt(tables, rs, i, d)
  {
    StepsOfMeets(tables, rs, i);
    var d :| MetAt(tables, rs, i, d);
    d
  }

  lemma {:induction false} MetOnce(tables: nat, rs: seq<Record>, i: nat, d: nat)
    requires Fits(tables, rs) && i < |rs| && MetAt(tables, rs, i, d)
    ensures d == StepsOf(tables, rs, i)
  {
    var j := SlotOwner(tables, rs, Hash(rs[i].key), d);
    if i != j {
      PosOfDistinct(tables, rs, i, j);
      assert false;
    }
  }

  /** Two records of one hash have depths in insertion order. */
  lemma {:induction false} DepthRises(tables: nat, rs: seq<Record>, i: nat, j: nat)
    requires Fits(tables, rs) && i < j < |rs| && Hash(rs[i].key) == Hash(rs[j].key)
    ensures Depth(tables, rs, i) < Depth(tables, rs, j)
  {
    MetOnce(tables, rs, i, Depth(tables, rs, i));
    MetOnce(tables, rs, j, Depth(tables, rs, j));
    StepsRise(tables, rs, i, j);
  }

  lemma {:induction false} StepsRise(tables: nat, rs: seq<Record>, i: nat, j: nat)
    requires Fits(tables, rs) && i < j < |rs| && Hash(rs[i].key) == Hash(rs[j].key)
    ensures StepsOf(tables, rs, i) < StepsOf(tables, rs, j)
  {
    var h, es := Hash(rs[i].key), Entries(tables, rs);
    RecordInBucket(tables, rs, i);
    RecordInBucket(tables, rs, j);
    TableInvariant(tables, rs, h);
    EntriesAt(tables, rs, i);
    EntriesAt(tables, rs, j);
    RankRises(es, tables, i, j);
    var b := HashBucket(tables, rs, h);
    EqualHashesInOrder(2 * |b|, b, tables, HashSpots(tables, rs, h), Rank(es, tables, i), Rank(es, tables, j));
  }

  /** A free slot on the path lies beyond every record of the hash. */
  lemma {:induction false} FreeSlotBeyond(tables: nat, rs: seq<Record>, i: nat, d: nat)
    requires Fits(tables, rs) && i < |rs| && d < 2 * |HashBucket(tables, rs, Hash(rs[i].key))|
    requires Probed(tables, rs, Hash(rs[i].key), d).p == 0
    ensures Depth(tables, rs, i) < d
  {
    var h := Hash(rs[i].key);
    MetOnce(tables, rs, i, Depth(tables, rs, i));
    RecordInBucket(tables, rs, i);
    TableInvariant(tables, rs, h);
    FreeSlotEndsPath(HashSlots(tables, rs, h), HashBucket(tables, rs, h), tables, HashSpots(tables, rs, h),
                     Rank(Entries(tables, rs), tables, i), d);
  }

  // The state of a search

  /** After d probes for key, exactly the first k of its records have been passed. */
  ghost predicate Passed(tables: nat, rs: seq<Record>, key: seq<byte>, k: nat, d: nat)
    requires Fits(tables, rs)
  {
    var m := Matches(rs, key);
    && k <= |m|
    && d <= 2 * |HashBucket(tables, rs, Hash(key))|
    && forall j :: 0 <= j < |m| ==> (j < k <==> Depth(tables, rs, m[j]) < d)
  }

  lemma {:induction false} PassedAtFree(tables: nat, rs: seq<Record>, key: seq<byte>, k: nat, d: nat)
    requires Fits(tables, rs) && Passed(tables, rs, key, k, d)
    requires d < 2 * |HashBucket(tables, rs, Hash(key))| && Probed(tables, rs, Hash(key), d).p == 0
    ensures k == |Matches(rs, key)|
  {
    var m := Matches(rs, key);
    if k < |m| {
      FreeSlotBeyond(tables, rs, m[k], d);
      assert false;
    }
  }

  lemma {:induction false} PassedAtEnd(tables: nat, rs: seq<Record>, key: seq<byte>, k: nat, d: nat)
    requires Fits(tables, rs) && Passed(tables, rs, key, k, d)
    requires d == 2 * |HashBucket(tables, rs, Hash(key))|
    ensures k == |Matches(rs, key)|
  {
    var m := Matches(rs, key);
    assert k < |m| ==> Depth(tables, rs, m[k]) < d;
  }

  /** A slot owned by a record of another key moves the search on. */
  lemma {:induction false} PassedMiss(tables: nat, rs: seq<Record>, key: seq<byte>, k: nat, d: nat, i: nat)
    requires Fits(tables, rs) && Passed(tables, rs, key, k, d)
    requires d < 2 * |HashBucket(tables, rs, Hash(key))|
    requires i < |rs| && rs[i].key != key
    requires Probed(tables, rs, Hash(key), d).p == PosOf(tables, rs, i)
    ensures Passed(tables, rs, key, k, d + 1)
  {
    var m := Matches(rs, key);
    forall j | 0 <= j < |m|
      ensures Depth(tables, rs, m[j]) != d
    {
      assert MetAt(tables, rs, m[j], Depth(tables, rs, m[j]));
      PosOfDistinct(tables, rs, i, m[j]);
    }
  }

  /** A slot owned by a record of this key is the next one in insertion order. */
  lemma {:induction false} PassedHit(tables: nat, rs: seq<Record>, key: seq<byte>, k: nat, d: nat, i: nat)
    requires Fits(tables, rs) && Passed(tables, rs, key, k, d)
    requires d < 2 * |HashBucket(tables, rs, Hash(key))|
    requires i < |rs| && rs[i].key == key && MetAt(tables, rs, i, d)
    ensures k < |Matches(rs, key)| && Matches(rs, key)[k] == i && Depth(tables, rs, i) == d
    ensures Passed(tables, rs, key, k + 1, d + 1)
  {
    var m := Matches(rs, key);
    MatchesComplete(rs, key, i);
    var j :| 0 <= j < |m| && m[j] == i;
    MetOnce(tables, rs, i, d);
    MetOnce(tables, rs, i, Depth(tables, rs, i));
    var ds := Depths(tables, rs, m);
    DepthsRise(tables, rs, key);
    NextInOrder(ds, k, d, j);
  }

  /** What meeting slot e as probe number d means for a search that has passed k records of key;
      i is the record that owns a slot in use. */
  ghost predicate SlotMeaning(tables: nat, rs: seq<Record>, key: seq<byte>, k: nat, d: nat, e: Hp, i: nat)
    requires Fits(tables, rs)
  {
    if e.p == 0 then k == |Matches(rs, key)|
    else
      && i < |rs| && e.p == PosOf(tables, rs, i)
      && (rs[i].key == key ==> e.h == Hash(key))
      && if rs[i].key == key
         then
           && k < |Matches(rs, key)| && Matches(rs, key)[k] == i
           && Depth(tables, rs, i) == d && Passed(tables, rs, key, k + 1, d + 1)
         else Passed(tables, rs, key, k, d + 1)
  }

  lemma {:induction false} NextSlotMeaning(tables: nat, rs: seq<Record>, key: seq<byte>, k: nat, d: nat)
    returns (i: nat)
    requires Fits(tables, rs) && Passed(tables, rs, key, k, d)
    requires d < 2 * |HashBucket(tables, rs, Hash(key))|
    ensures SlotMeaning(tables, rs, key, k, d, Probed(tables, rs, Hash(key), d), i)
  {
    hide Passed, HashBucket, PosOf, Fits, Probed, Hash, Matches;
    i := 0;
    if Probed(tables, rs, Hash(key), d).p == 0 {
      PassedAtFree(tables, rs, key, k, d);
    } else {
      i := SlotOwner(tables, rs, Hash(key), d);
      if rs[i].key == key {
        PassedHit(tables, rs, key, k, d, i);
      } else {
        PassedMiss(tables, rs, key, k, d, i);
      }
    }
  }

  ghost function Depths(tables: nat, rs: seq<Record>, m: seq<nat>): (ds: seq<nat>)
    requires Fits(tables, rs) && forall j :: 0 <= j < |m| ==> m[j] < |rs|
    ensures |ds| == |m| && forall j :: 0 <= j < |m| ==> ds[j] == Depth(tables, rs, m[j])
  {
    seq(|m|, j requires 0 <= j < |m| => Depth(tables, rs, m[j]))
  }

  ghost predicate Rising(ds: seq<nat>) {
    forall j, l :: 0 <= j < l < |ds| ==> ds[j] < ds[l]
  }

  lemma {:induction false} DepthsRise(tables: nat, rs: seq<Record>, key: seq<byte>)
    requires Fits(tables, rs)
    ensures Rising(Depths(tables, rs, Matches(rs, key)))
  {
    var m := Matches(rs, key);
    forall j, l | 0 <= j < l < |m|
      ensures Depth(tables, rs, m[j]) < Depth(tables, rs, m[l])
    {
      MatchesRise(rs, key, j, l);
      DepthRises(tables, rs, m[j], m[l]);
    }
  }

  /** In a rising sequence, if exactly the first k lie below d and one equals d, it is number k. */
  lemma NextInOrder(ds: seq<nat>, k: nat, d: nat, j: nat)
    requires Rising(ds) && k <= |ds| && j < |ds| && ds[j] == d
    requires forall l :: 0 <= l < |ds| ==> (l < k <==> ds[l] < d)
    ensures j == k
    ensures forall l :: 0 <= l < |ds| ==> (l < k + 1 <==> ds[l] < d + 1)
  {
    assert j < k <==> ds[j] < d;
    assert k <= j;
    assert k < k <==> ds[k] < d;
  }

  lemma {:induction false} PosOfDistinct(tables: nat, rs: seq<Record>, i: nat, j: nat)
    requires i < |rs| && j < |rs| && i != j
    ensures PosOf(tables, rs, i) != PosOf(tables, rs, j)
  {
    if i < j { PosOfRises(tables, rs, i, j); } else { PosOfRises(tables, rs, j, i); }
  }

  lemma {:induction false} PosOfRises(tables: nat, rs: seq<Record>, i: nat, j: nat)
    requires i < j <= |rs|
    ensures PosOf(tables, rs, i) + 8 <= PosOf(tables, rs, j)
    decreases j
  {
    DataAreaAt(rs, j - 1);
    if i < j - 1 {
      PosOfRises(tables, rs, i, j - 1);
    }
  }
}
