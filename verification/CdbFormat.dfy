/** The file that a finished database is, as a function of the records added to it:
    a header of (position, slot count) pairs, the records, and the hash tables.
    The number of tables is a parameter: 512 in cdb/, 256 in cdb/orig/. */
module CdbFormat {
  import opened Words
  import opened Sequences
  import opened CdbHash
  import opened CdbProbe

  datatype Record = Record(key: Bytes, data: Bytes)

  function RecordBytes(r: Record): (s: seq<byte>)
    ensures |s| == 8 + |r.key| + |r.data|
  {
    Pack(|r.key|) + Pack(|r.data|) + r.key + r.data
  }

  function DataArea(rs: seq<Record>): seq<byte> {
    if rs == [] then [] else DataArea(rs[..|rs| - 1]) + RecordBytes(rs[|rs| - 1])
  }

  /** Where record i starts; for i = |rs|, where the records end. */
  function PosOf(tables: nat, rs: seq<Record>, i: nat): nat
    requires i <= |rs|
  {
    8 * tables + |DataArea(rs[..i])|
  }

  function Eod(tables: nat, rs: seq<Record>): nat {
    8 * tables + |DataArea(rs)|
  }

  function FileSize(tables: nat, rs: seq<Record>): nat {
    Eod(tables, rs) + 16 * |rs|
  }

  /** The whole file has to be addressable with 32 bits. */
  predicate Fits(tables: nat, rs: seq<Record>) {
    tables > 0 && FileSize(tables, rs) < TWO32
  }

  function TableOf(h: uint32, tables: nat): (t: nat)
    requires tables > 0
    ensures t < tables
  {
    h % tables
  }

  lemma TableIs(h: uint32, tables: nat)
    requires tables > 0
    ensures TableOf(h, tables) == h % tables
  {
  }

  /** One (hash, position) entry per record, in insertion order. */
  function Entries(tables: nat, rs: seq<Record>): (es: seq<Hp>)
    requires Eod(tables, rs) < TWO32
    ensures |es| == |rs|
  {
    if rs == [] then [] else
    var front := rs[..|rs| - 1];
    Entries(tables, front) + [Hp(Hash(rs[|rs| - 1].key), Eod(tables, front))]
  }

  /** The entries of table t, in insertion order. */
  function Bucket(es: seq<Hp>, tables: nat, t: nat): (b: seq<Hp>)
    requires tables > 0
    ensures |b| <= |es|
  {
    if es == [] then [] else
    var b := Bucket(es[..|es| - 1], tables, t);
    if TableOf(es[|es| - 1].h, tables) == t then b + [es[|es| - 1]] else b
  }

  /** Twice as many slots as entries, filled by linear probing. */
  function TableSlots(es: seq<Hp>, tables: nat, t: nat): (slots: seq<Hp>)
    requires tables > 0
    ensures |slots| == 2 * |Bucket(es, tables, t)|
  {
    var b := Bucket(es, tables, t);
    Fill(2 * |b|, b, tables)
  }

  /** The slots of tables 0 to t-1, one table after the other. */
  function SlotsBefore(es: seq<Hp>, tables: nat, t: nat): seq<Hp>
    requires tables > 0
  {
    if t == 0 then [] else SlotsBefore(es, tables, t - 1) + TableSlots(es, tables, t - 1)
  }

  function SlotBytes(slots: seq<Hp>): (s: seq<byte>)
    ensures |s| == 8 * |slots|
  {
    if slots == [] then [] else
    var e := slots[|slots| - 1];
    SlotBytes(slots[..|slots| - 1]) + Pack(e.h) + Pack(e.p)
  }

  /** Number of entries in tables 0 to t-1. */
  function CountBefore(es: seq<Hp>, tables: nat, t: nat): nat
    requires tables > 0
  {
    if t == 0 then 0 else CountBefore(es, tables, t - 1) + |Bucket(es, tables, t - 1)|
  }

  /** Where table t starts. */
  function TablePos(tables: nat, rs: seq<Record>, t: nat): uint32
    requires Fits(tables, rs) && t <= tables
  {
    CountBeforeBound(Entries(tables, rs), tables, t);
    Eod(tables, rs) + 16 * CountBefore(Entries(tables, rs), tables, t)
  }

  /** The first t (position, slot count) pairs of the header. A pair has the form of a slot. */
  function Pointers(tables: nat, rs: seq<Record>, t: nat): (ps: seq<Hp>)
    requires Fits(tables, rs) && t <= tables
    ensures |ps| == t
  {
    if t == 0 then [] else
    Pointers(tables, rs, t - 1) + [Hp(TablePos(tables, rs, t - 1), 2 * |Bucket(Entries(tables, rs), tables, t - 1)|)]
  }

  /** The finished file. */
  function Image(tables: nat, rs: seq<Record>): (s: seq<byte>)
    requires Fits(tables, rs)
    ensures |s| == FileSize(tables, rs)
  {
    var es := Entries(tables, rs);
    CountBeforeTotal(es, tables);
    SlotsBeforeSize(es, tables, tables);
    SlotBytes(Pointers(tables, rs, tables)) + DataArea(rs) + SlotBytes(SlotsBefore(es, tables, tables))
  }

  // Sizes

  lemma {:induction false} CountBeforeStep(es: seq<Hp>, tables: nat, t: nat)
    requires tables > 0 && es != []
    ensures CountBefore(es, tables, t) ==
            CountBefore(es[..|es| - 1], tables, t) +
            (if TableOf(es[|es| - 1].h, tables) < t then 1 else 0)
  {
    if t > 0 {
      CountBeforeStep(es, tables, t - 1);
    }
  }

  lemma {:induction false} CountBeforeBound(es: seq<Hp>, tables: nat, t: nat)
    requires tables > 0
    ensures CountBefore(es, tables, t) <= |es|
  {
    if es == [] {
      CountBeforeEmpty(tables, t);
    } else {
      CountBeforeStep(es, tables, t);
      CountBeforeBound(es[..|es| - 1], tables, t);
    }
  }

  lemma {:induction false} CountBeforeEmpty(tables: nat, t: nat)
    requires tables > 0
    ensures CountBefore([], tables, t) == 0
  {
    if t > 0 {
      CountBeforeEmpty(tables, t - 1);
    }
  }

  /** Every entry is in exactly one table. */
  lemma {:induction false} CountBeforeTotal(es: seq<Hp>, tables: nat)
    requires tables > 0
    ensures CountBefore(es, tables, tables) == |es|
  {
    if es == [] {
      CountBeforeEmpty(tables, tables);
    } else {
      CountBeforeStep(es, tables, tables);
      CountBeforeTotal(es[..|es| - 1], tables);
    }
  }

  lemma {:induction false} CountBeforeMonotone(es: seq<Hp>, tables: nat, t: nat, u: nat)
    requires tables > 0 && t <= u
    ensures CountBefore(es, tables, t) <= CountBefore(es, tables, u)
    decreases u
  {
    if t < u {
      CountBeforeMonotone(es, tables, t, u - 1);
    }
  }

  lemma {:induction false} SlotsBeforeSize(es: seq<Hp>, tables: nat, t: nat)
    requires tables > 0
    ensures |SlotsBefore(es, tables, t)| == 2 * CountBefore(es, tables, t)
  {
    if t > 0 {
      SlotsBeforeSize(es, tables, t - 1);
    }
  }

  // Adding one record

  lemma {:induction false} DataAreaAppend(rs: seq<Record>, r: Record)
    ensures DataArea(rs + [r]) == DataArea(rs) + RecordBytes(r)
  {
    var all := rs + [r];
    assert all[..|all| - 1] == rs;
  }

  lemma {:induction false} EodAppend(tables: nat, rs: seq<Record>, r: Record)
    ensures Eod(tables, rs + [r]) == Eod(tables, rs) + 8 + |r.key| + |r.data|
  {
    DataAreaAppend(rs, r);
  }

  lemma {:induction false} EntriesAppend(tables: nat, rs: seq<Record>, r: Record)
    requires Eod(tables, rs + [r]) < TWO32
    ensures Eod(tables, rs) < TWO32
    ensures Entries(tables, rs + [r]) == Entries(tables, rs) + [Hp(Hash(r.key), Eod(tables, rs))]
  {
    hide Hash;
    var all := rs + [r];
    assert all[..|all| - 1] == rs;
    EodAppend(tables, rs, r);
  }

  // Reading pieces back

  lemma {:induction false} DataAreaAt(rs: seq<Record>, i: nat)
    requires i < |rs|
    ensures var p := |DataArea(rs[..i])|;
            && |DataArea(rs[..i + 1])| == p + |RecordBytes(rs[i])| <= |DataArea(rs)|
            && DataArea(rs)[p..p + |RecordBytes(rs[i])|] == RecordBytes(rs[i])
  {
    var n := |rs| - 1;
    var front := rs[..n];
    if i < n {
      DataAreaAt(front, i);
      assert front[..i] == rs[..i] && front[..i + 1] == rs[..i + 1];
    } else {
      assert rs[..i + 1] == rs;
    }
  }

  lemma {:induction false} EodPrefix(tables: nat, rs: seq<Record>, i: nat)
    requires i <= |rs|
    ensures Eod(tables, rs[..i]) <= Eod(tables, rs)
  {
    if i < |rs| {
      DataAreaAt(rs, i);
    } else {
      assert rs[..i] == rs;
    }
  }

  lemma {:induction false} SlotBytesAt(slots: seq<Hp>, i: nat)
    requires i < |slots|
    ensures SlotBytes(slots)[8 * i..8 * i + 4] == Pack(slots[i].h)
    ensures SlotBytes(slots)[8 * i + 4..8 * i + 8] == Pack(slots[i].p)
  {
    if i < |slots| - 1 {
      SlotBytesAt(slots[..|slots| - 1], i);
    }
  }

  lemma {:induction false} SlotsBeforeAt(es: seq<Hp>, tables: nat, u: nat, t: nat, s: nat)
    requires tables > 0 && t < u && s < |TableSlots(es, tables, t)|
    ensures var k := 2 * CountBefore(es, tables, t) + s;
            k < |SlotsBefore(es, tables, u)| && SlotsBefore(es, tables, u)[k] == TableSlots(es, tables, t)[s]
    decreases u
  {
    hide TableOf, Bucket, Fill;
    SlotsBeforeSize(es, tables, u - 1);
    if t < u - 1 {
      SlotsBeforeAt(es, tables, u - 1, t, s);
    }
  }

  lemma {:induction false} PointersAt(tables: nat, rs: seq<Record>, u: nat, t: nat)
    requires Fits(tables, rs) && t < u <= tables
    ensures Pointers(tables, rs, u)[t] == Hp(TablePos(tables, rs, t), 2 * |Bucket(Entries(tables, rs), tables, t)|)
    decreases u
  {
    hide TableOf, TablePos, Bucket;
    if t < u - 1 {
      PointersAt(tables, rs, u - 1, t);
    }
  }

  /** The header pair of table t. */
  lemma {:induction false} ImagePointer(tables: nat, rs: seq<Record>, t: nat)
    requires Fits(tables, rs) && t < tables
    ensures SlotIn(Image(tables, rs), 8 * t, Hp(TablePos(tables, rs, t), 2 * |Bucket(Entries(tables, rs), tables, t)|))
  {
    hide TableOf, TablePos, Bucket;
    PointersAt(tables, rs, tables, t);
    var ps, d := Pointers(tables, rs, tables), DataArea(rs);
    var s := SlotBytes(SlotsBefore(Entries(tables, rs), tables, tables));
    var h := SlotBytes(ps);
    SlotAfter([], ps, t);
    assert [] + h == h;
    SliceOfParts(h, d, s, Image(tables, rs));
    SliceLeft(h, d + s, 8 * t, 8 * t + 4);
    SliceLeft(h, d + s, 8 * t + 4, 8 * t + 8);
  }

  lemma SliceOfParts(h: seq<byte>, d: seq<byte>, s: seq<byte>, f: seq<byte>)
    requires f == h + d + s
    ensures f == h + (d + s)
  {
  }

  /** The file holds the slot e at position p. */
  predicate SlotIn(f: seq<byte>, p: nat, e: Hp) {
    p + 8 <= |f| && f[p..p + 4] == Pack(e.h) && f[p + 4..p + 8] == Pack(e.p)
  }

  lemma {:induction false} SlotAfter(front: seq<byte>, slots: seq<Hp>, k: nat)
    requires k < |slots|
    ensures SlotIn(front + SlotBytes(slots), |front| + 8 * k, slots[k])
  {
    SlotBytesAt(slots, k);
    SliceRight(front, SlotBytes(slots), 8 * k, 8 * k + 4);
    SliceRight(front, SlotBytes(slots), 8 * k + 4, 8 * k + 8);
  }

  /** Slot s of table t, which lies inside the file. */
  lemma {:induction false} ImageSlot(tables: nat, rs: seq<Record>, t: nat, s: nat)
    requires Fits(tables, rs) && t < tables && s < 2 * |Bucket(Entries(tables, rs), tables, t)|
    ensures SlotIn(Image(tables, rs), TablePos(tables, rs, t) + 8 * s, TableSlots(Entries(tables, rs), tables, t)[s])
  {
    hide TableOf, Bucket, Fill;
    var es := Entries(tables, rs);
    SlotsBeforeAt(es, tables, tables, t, s);
    SlotAfter(SlotBytes(Pointers(tables, rs, tables)) + DataArea(rs), SlotsBefore(es, tables, tables),
              2 * CountBefore(es, tables, t) + s);
  }

  /** Record i, which lies before the tables. */
  lemma {:induction false} ImageRecord(tables: nat, rs: seq<Record>, i: nat)
    requires Fits(tables, rs) && i < |rs|
    ensures var f, p, r := Image(tables, rs), PosOf(tables, rs, i), rs[i];
            && p + 8 + |r.key| + |r.data| == PosOf(tables, rs, i + 1) <= Eod(tables, rs) <= |f|
            && RecordIn(f, p, r)
  {
    hide TableOf, Bucket, RecordIn, Pointers, SlotsBefore, SlotBytes, RecordBytes;
    DataAreaAt(rs, i);
    var h, d := SlotBytes(Pointers(tables, rs, tables)), DataArea(rs);
    var s := SlotBytes(SlotsBefore(Entries(tables, rs), tables, tables));
    var f, p, r := Image(tables, rs), PosOf(tables, rs, i), rs[i];
    var k, n := |DataArea(rs[..i])|, |RecordBytes(r)|;
    SliceMiddle(h, d, s, k, k + n);
    RecordInSlice(f, p, r);
  }

  /** The file holds record r at position p. */
  predicate RecordIn(f: seq<byte>, p: nat, r: Record) {
    && p + 8 + |r.key| + |r.data| <= |f|
    && f[p..p + 4] == Pack(|r.key|)
    && f[p + 4..p + 8] == Pack(|r.data|)
    && f[p + 8..p + 8 + |r.key|] == r.key
    && f[p + 8 + |r.key|..p + 8 + |r.key| + |r.data|] == r.data
  }

  lemma RecordInSlice(f: seq<byte>, p: nat, r: Record)
    requires p + |RecordBytes(r)| <= |f| && f[p..p + |RecordBytes(r)|] == RecordBytes(r)
    ensures RecordIn(f, p, r)
  {
    var b, k := RecordBytes(r), |r.key|;
    assert b[..4] == Pack(|r.key|);
    assert b[4..8] == Pack(|r.data|);
    assert b[8..8 + k] == r.key;
    assert b[8 + k..] == r.data;
    SliceSlice(f, p, p + |b|, 0, 4);
    SliceSlice(f, p, p + |b|, 4, 8);
    SliceSlice(f, p, p + |b|, 8, 8 + k);
    SliceSlice(f, p, p + |b|, 8 + k, |b|);
  }

  // Entries and buckets

  lemma {:induction false} EntriesAt(tables: nat, rs: seq<Record>, i: nat)
    requires Eod(tables, rs) < TWO32 && i < |rs|
    ensures PosOf(tables, rs, i) < TWO32
    ensures Entries(tables, rs)[i] == Hp(Hash(rs[i].key), PosOf(tables, rs, i))
  {
    var n := |rs| - 1;
    if i < n {
      EntriesAt(tables, rs[..n], i);
      assert rs[..n][..i] == rs[..i];
    }
  }

  lemma {:induction false} BucketConcat(a: seq<Hp>, b: seq<Hp>, tables: nat, t: nat)
    requires tables > 0
    ensures Bucket(a + b, tables, t) == Bucket(a, tables, t) + Bucket(b, tables, t)
  {
    hide TableOf;
    if b == [] {
      assert a + b == a;
    } else {
      var n := |b| - 1;
      BucketConcat(a, b[..n], tables, t);
      assert (a + b)[..|a + b| - 1] == a + b[..n];
    }
  }

  /** How many earlier entries share the table of entry i: its place in its bucket. */
  function Rank(es: seq<Hp>, tables: nat, i: nat): nat
    requires tables > 0 && i < |es|
  {
    |Bucket(es[..i], tables, TableOf(es[i].h, tables))|
  }

  lemma {:induction false} RankPoints(es: seq<Hp>, tables: nat, i: nat)
    requires tables > 0 && i < |es|
    ensures var b := Bucket(es, tables, TableOf(es[i].h, tables));
            Rank(es, tables, i) < |b| && b[Rank(es, tables, i)] == es[i]
  {
    var t := TableOf(es[i].h, tables);
    BucketConcat(es[..i + 1], es[i + 1..], tables, t);
    assert es == es[..i + 1] + es[i + 1..];
    assert es[..i + 1][..i] == es[..i];
  }

  lemma {:induction false} RankRises(es: seq<Hp>, tables: nat, i: nat, j: nat)
    requires tables > 0 && i < j < |es|
    requires TableOf(es[i].h, tables) == TableOf(es[j].h, tables)
    ensures Rank(es, tables, i) < Rank(es, tables, j)
  {
    RankPoints(es[..j], tables, i);
    assert es[..j][..i] == es[..i];
  }

  /** Every place in a bucket is some entry's. */
  lemma {:induction false} BucketOwner(es: seq<Hp>, tables: nat, t: nat, k: nat) returns (i: nat)
    requires tables > 0 && k < |Bucket(es, tables, t)|
    ensures i < |es| && TableOf(es[i].h, tables) == t && Rank(es, tables, i) == k
    ensures es[i] == Bucket(es, tables, t)[k]
  {
    var n := |es| - 1;
    if k < |Bucket(es[..n], tables, t)| {
      i := BucketOwner(es[..n], tables, t, k);
      assert es[..n][..i] == es[..i];
    } else {
      i := n;
    }
  }

  // The 256-table instance

  lemma Pow2Of11()
    ensures Pow2(11) == 2048
  {
    assert Pow2(4) == 16;
    assert Pow2(8) == 256;
  }

  /** cdb/orig finds the header pair of hash u at (u << 3) & 2047: that is 8 * (u % 256). */
  lemma {:induction false} OrigHeaderOffset(u: uint32)
    ensures BitAnd(2047, Wrap(u * 8)) == 8 * TableOf(u, 256)
  {
    hide BitAnd, Pow2;
    Pow2Of11();
    var w := Wrap(u * 8);
    MaskIsRemainder(11, w);
    var q, r, k := u / 256, u % 256, u * 8 / TWO32;
    assert w == (q - 0x20_0000 * k) * 2048 + 8 * r;
    DivisionIsUnique(w, 2048, q - 0x20_0000 * k, 8 * r);
  }
}
