/** The writer (cdb/cdb_make.c, and cdb/orig/cdb_make.c with 256 tables). */
module CdbMaker {
  import opened Words
  import opened CdbHash
  import opened CdbProbe
  import opened CdbFormat
  import opened Device
  import opened Buffers

  const CDB_HPLIST := 1000
  const BSPACE := 8192

  /** The block list: the newest block first, each block filled from the front. */
  datatype HpList = Nil | Block(hp: seq<Hp>, next: HpList)

  /** All entries, oldest first. */
  function Contents(l: HpList): seq<Hp> {
    match l
    case Nil => []
    case Block(hp, next) => Contents(next) + hp
  }

  /** Prepending an entry to a list of entries. */
  lemma {:induction false} BucketFront(e: Hp, es: seq<Hp>, tables: nat, t: nat)
    requires tables > 0
    ensures Bucket([e] + es, tables, t) ==
            if TableOf(e.h, tables) == t then [e] + Bucket(es, tables, t) else Bucket(es, tables, t)
  {
    hide TableOf;
    BucketConcat([e], es, tables, t);
    assert [e][..0] == [];
    assert Bucket([], tables, t) == [];
  }

  /** Table t's share of the entries still to be distributed, and of those already placed. */
  ghost predicate Spread(es: seq<Hp>, tables: nat, k: nat, start: seq<uint32>, split: seq<Hp>)
    requires tables > 0 && k <= |es|
  {
    && |start| == tables && |es| <= |split|
    && forall t :: 0 <= t < tables ==> SpreadAt(es, tables, k, start[t], split, t)
  }

  ghost predicate SpreadAt(es: seq<Hp>, tables: nat, k: nat, s: uint32, split: seq<Hp>, t: nat)
    requires tables > 0 && k <= |es| && t < tables
  {
    && s == CountBefore(es, tables, t) + |Bucket(es[..k], tables, t)|
    && CountBefore(es, tables, t + 1) <= |split|
    && s <= CountBefore(es, tables, t + 1)
    && split[s..CountBefore(es, tables, t + 1)] == Bucket(es[k..], tables, t)
  }

  /** One step of the distribution, from the last entry backwards: write below the share of e's table. */
  lemma {:induction false} SpreadStep(es: seq<Hp>, tables: nat, k: nat, start: seq<uint32>, split: seq<Hp>)
    requires tables > 0 && 0 < k <= |es|
    requires Spread(es, tables, k, start, split)
    ensures var e := es[k - 1];
            var t := TableOf(e.h, tables);
            && 0 < start[t] <= |es|
            && Spread(es, tables, k - 1, start[t := start[t] - 1], split[start[t] - 1 := e])
  {
    hide TableOf, CountBefore;
    var e := es[k - 1];
    var t0 := TableOf(e.h, tables);
    assert es[k - 1..] == [e] + es[k..];
    assert es[..k] == es[..k - 1] + [e];
    assert SpreadAt(es, tables, k, start[t0], split, t0);
    BucketConcat(es[..k - 1], [e], tables, t0);
    BucketFront(e, [], tables, t0);
    assert [e] + [] == [e];
    CountBeforeBound(es, tables, t0 + 1);
    var s0 := start[t0] - 1;
    var start', split' := start[t0 := s0], split[s0 := e];
    forall t | 0 <= t < tables
      ensures SpreadAt(es, tables, k - 1, start'[t], split', t)
    {
      assert SpreadAt(es, tables, k, start[t], split, t);
      SpreadStepAt(es, tables, k, start[t], split, t, s0);
    }
  }

  lemma {:induction false} SpreadStepAt(es: seq<Hp>, tables: nat, k: nat, s: uint32, split: seq<Hp>, t: nat, s0: nat)
    requires tables > 0 && 0 < k <= |es| && t < tables
    requires SpreadAt(es, tables, k, s, split, t)
    requires var e := es[k - 1];
             var t0 := TableOf(e.h, tables);
             && s0 < |split|
             && CountBefore(es, tables, t0) <= s0 < CountBefore(es, tables, t0 + 1)
             && (t == t0 ==> s == s0 + 1)
    ensures var e := es[k - 1];
            SpreadAt(es, tables, k - 1, if t == TableOf(e.h, tables) then s - 1 else s, split[s0 := e], t)
  {
    hide TableOf, CountBefore, Bucket;
    var e := es[k - 1];
    var t0 := TableOf(e.h, tables);
    assert es[k - 1..] == [e] + es[k..];
    assert es[..k] == es[..k - 1] + [e];
    BucketConcat(es[..k - 1], [e], tables, t);
    BucketFront(e, [], tables, t);
    BucketFront(e, es[k..], tables, t);
    assert [e] + [] == [e];
    assert Bucket([], tables, t) == [];
    var hi := CountBefore(es, tables, t + 1);
    if t == t0 {
      assert split[s0 := e][s0..hi] == [e] + split[s..hi];
    } else {
      if t < t0 {
        CountBeforeMonotone(es, tables, t + 1, t0);
      } else {
        CountBeforeMonotone(es, tables, t0 + 1, t);
      }
      assert split[s0 := e][s..hi] == split[s..hi];
    }
  }

  /** count has the bucket sizes of the entries from k on. */
  ghost predicate Tally(es: seq<Hp>, tables: nat, k: nat, count: seq<uint32>)
    requires tables > 0 && k <= |es|
  {
    |count| == tables && forall t :: 0 <= t < tables ==> count[t] == |Bucket(es[k..], tables, t)|
  }

  lemma {:induction false} TallyStep(es: seq<Hp>, tables: nat, k: nat, count: seq<uint32>)
    requires tables > 0 && 0 < k <= |es| && |es| < 0x2000_0000
    requires Tally(es, tables, k, count)
    ensures var t := TableOf(es[k - 1].h, tables);
            count[t] + 1 < TWO32 && Tally(es, tables, k - 1, count[t := count[t] + 1])
  {
    hide TableOf, Bucket;
    assert es[k - 1..] == [es[k - 1]] + es[k..];
    forall t | 0 <= t < tables
      ensures |Bucket(es[k - 1..], tables, t)| == count[t] + if TableOf(es[k - 1].h, tables) == t then 1 else 0
    {
      BucketFront(es[k - 1], es[k..], tables, t);
    }
  }

  /** The number of slots of the largest of the first t tables, and at least 1. */
  function Largest(es: seq<Hp>, tables: nat, t: nat): (n: nat)
    requires tables > 0
    ensures 1 <= n <= 2 * |es| + 1
  {
    if t == 0 then 1 else
    var m, n := 2 * |Bucket(es, tables, t - 1)|, Largest(es, tables, t - 1);
    if m > n then m else n
  }

  lemma {:induction false} LargestBound(es: seq<Hp>, tables: nat, t: nat, u: nat)
    requires tables > 0 && t < u
    ensures 2 * |Bucket(es, tables, t)| <= Largest(es, tables, u)
    decreases u
  {
    hide Bucket;
    if t < u - 1 {
      LargestBound(es, tables, t, u - 1);
    }
  }

  /** Before the second pass everything is still to be distributed. */
  lemma {:induction false} SpreadInit(es: seq<Hp>, tables: nat, start: seq<uint32>, split: seq<Hp>)
    requires tables > 0 && |start| == tables && |es| <= |split|
    requires forall t :: 0 <= t < tables ==> start[t] == CountBefore(es, tables, t + 1)
    ensures Spread(es, tables, |es|, start, split)
  {
    hide Bucket, TableOf;
    assert es[..|es|] == es && es[|es|..] == [];
    forall t | 0 <= t < tables
      ensures SpreadAt(es, tables, |es|, start[t], split, t)
    {
      CountBeforeBound(es, tables, t + 1);
    }
  }

  /** After the second pass each bucket is a slice of the work area. */
  lemma {:induction false} BucketInSplit(es: seq<Hp>, tables: nat, start: seq<uint32>, split: seq<Hp>,
      count: seq<uint32>, t: nat)
    requires tables > 0 && t < tables
    requires Tally(es, tables, 0, count) && Spread(es, tables, 0, start, split)
    ensures var b := Bucket(es, tables, t);
            && count[t] == |b|
            && start[t] + |b| <= |es|
            && split[start[t]..start[t] + |b|] == b
            && forall u :: 0 <= u < |b| ==> split[start[t] + u] == b[u]
  {
    hide Bucket, TableOf;
    assert es[0..] == es && es[..0] == [];
    assert SpreadAt(es, tables, 0, start[t], split, t);
    CountBeforeBound(es, tables, t + 1);
    var b := Bucket(es, tables, t);
    forall u | 0 <= u < |b|
      ensures split[start[t] + u] == b[u]
    {
      assert split[start[t]..start[t] + |b|][u] == split[start[t] + u];
    }
  }

  /** Probing a table with fewer entries than slots reaches a free slot. */
  lemma {:induction false} ProbeStops(len: nat, placed: seq<Hp>, tables: nat, w: nat)
    requires tables > 0 && |placed| < len && w < len
    requires forall i :: 0 <= i < |placed| ==> placed[i].p != 0
    ensures ProbeFrom(Fill(len, placed, tables), w, 0) < len
  {
    hide Home, Place;
    FillInvariant(len, placed, tables);
    var table, at := Fill(len, placed, tables), Spots(len, placed, tables);
    var s := SomeSlotFree(at, len);
    assert table[Slot(w, Dist(w, s, len), len)].p == 0;
  }

  ghost predicate PairsAre(ps: seq<Hp>, eod: nat, es: seq<Hp>, tables: nat)
    requires tables > 0
  {
    forall t :: 0 <= t < |ps| ==>
      ps[t].h == eod + 16 * CountBefore(es, tables, t) && ps[t].p == 2 * |Bucket(es, tables, t)|
  }

  /** bytes are the header pairs of the first i tables. */
  ghost predicate PairsUpTo(tables: nat, eod: nat, es: seq<Hp>, i: nat, bytes: seq<byte>)
    requires tables > 0
  {
    exists ps: seq<Hp> :: |ps| == i && bytes == SlotBytes(ps) && PairsAre(ps, eod, es, tables)
  }

  /** The distribution lives in the first places of the work area. */
  lemma {:induction false} SpreadFrame(es: seq<Hp>, tables: nat, start: seq<uint32>, split: seq<Hp>, split': seq<Hp>)
    requires tables > 0 && Spread(es, tables, 0, start, split)
    requires |split| == |split'| && split[..|es|] == split'[..|es|]
    ensures Spread(es, tables, 0, start, split')
  {
    hide Bucket, TableOf, CountBefore;
    forall t | 0 <= t < tables
      ensures SpreadAt(es, tables, 0, start[t], split', t)
    {
      assert SpreadAt(es, tables, 0, start[t], split, t);
      CountBeforeBound(es, tables, t + 1);
      var s, hi := start[t], CountBefore(es, tables, t + 1);
      assert split'[s..hi] == split'[..|es|][s..hi] == split[..|es|][s..hi] == split[s..hi];
    }
  }

  lemma {:induction false} SlotBytesConcat(a: seq<Hp>, b: seq<Hp>)
    ensures SlotBytes(a + b) == SlotBytes(a) + SlotBytes(b)
  {
    hide Pack;
    if b == [] {
      assert a + b == a;
    } else {
      var n := |b| - 1;
      SlotBytesConcat(a, b[..n]);
      assert (a + b)[..|a + b| - 1] == a + b[..n];
    }
  }

  lemma {:induction false} AreaGrows(area: seq<byte>, es: seq<Hp>, tables: nat, i: nat)
    requires tables > 0
    ensures area + SlotBytes(SlotsBefore(es, tables, i)) + SlotBytes(TableSlots(es, tables, i)) ==
            area + SlotBytes(SlotsBefore(es, tables, i + 1))
    ensures CountBefore(es, tables, i + 1) == CountBefore(es, tables, i) + |Bucket(es, tables, i)|
    ensures |TableSlots(es, tables, i)| == 2 * |Bucket(es, tables, i)|
  {
    hide Bucket, TableSlots, SlotBytes;
    SlotBytesConcat(SlotsBefore(es, tables, i), TableSlots(es, tables, i));
  }

  lemma SliceOfFront(a: seq<Hp>, b: seq<Hp>, n: nat, i: nat, j: nat)
    requires i <= j <= n <= |a| && n <= |b| && a[..n] == b[..n]
    ensures a[i..j] == b[i..j]
  {
    assert a[..n][i..j] == a[i..j] && b[..n][i..j] == b[i..j];
  }

  method PackPair(a: array<byte>, at: nat, x: uint32, y: uint32)
    requires at + 8 <= a.Length
    modifies a
    ensures a[at..at + 8] == Pack(x) + Pack(y)
    ensures a[..at] == old(a[..at]) && a[at + 8..] == old(a[at + 8..])
  {
    hide Pack;
    PackByShifts(a, at, x);
    ghost var s := a[..];
    PackByShifts(a, at + 4, y);
    assert a[at..at + 4] == a[..at + 4][at..] == s[at..at + 4];
    assert a[at..at + 8] == a[at..at + 4] + a[at + 4..at + 8];
    assert a[..at] == a[..at + 4][..at] == s[..at];
    assert a[at + 8..] == s[at + 8..] == s[at + 4..][4..];
  }

  class Maker {
    const bits: nat
    const b: OutBuffer
    const final: array<byte>
    const count: array<uint32>
    const start: array<uint32>
    var head: HpList
    var numentries: uint32
    var pos: uint32
    ghost const base: seq<byte>       // what the file held before
    ghost var records: seq<Record>    // what has been added

    /** The number of tables, a power of two. */
    function Tables(): nat
      reads {}
    {
      Pow2(bits)
    }

    ghost predicate Valid()
      reads this, b
    {
      Consistent() && pos == Eod(Tables(), records)
    }

    /** Valid() but for pos, which moves on while the tables are written. */
    ghost predicate Consistent()
      reads this, b
    {
      && 8 * Tables() < TWO32
      && final.Length == 8 * Tables() && count.Length == Tables() && start.Length == Tables()
      && count != start && final != b.x
      && b.Valid()
      && Eod(Tables(), records) < TWO32
      && numentries == |records|
      && Contents(head) == Entries(Tables(), records)
    }

    /** The file, once flushed, has these bytes behind the place of the header. */
    ghost predicate Streamed(bytes: seq<byte>)
      requires b.Valid()
      reads b, b.x, b.fd
    {
      Sent(b, base, 8 * Tables(), bytes)
    }

    /** `cdb_make_start`. */
    constructor (fd: File, bits: nat)
      requires 8 * Pow2(bits) < TWO32
      modifies fd`offset
      ensures Valid() && this.bits == bits && b.fd == fd && records == [] && base == old(fd.content)
      ensures fresh(b) && fresh(b.x) && fresh(final) && fresh(count) && fresh(start)
      ensures Streamed([])
    {
      this.bits := bits;
      head, numentries, records := Nil, 0, [];
      base := fd.content;
      pos := 8 * Pow2(bits);
      final := new byte[8 * Pow2(bits)](_ => 0);
      count := new uint32[Pow2(bits)](_ => 0);
      start := new uint32[Pow2(bits)](_ => 0);
      b := new OutBuffer(fd, BSPACE);
      new;
      fd.SeekSet(8 * Pow2(bits));
    }

    /** `posplus`: the check notices exactly the sums that do not fit 32 bits. */
    method PosPlus(len: uint32) returns (ok: bool)
      modifies this`pos
      ensures ok <==> old(pos) + len < TWO32
      ensures ok ==> pos == old(pos) + len
      ensures !ok ==> pos == old(pos)
    {
      var newpos := Wrap(pos + len);
      if newpos < len { return false; }
      pos := newpos;
      return true;
    }

    /** `cdb_make_addbegin`. */
    method AddBegin(keylen: uint32, datalen: uint32, ghost before: seq<byte>) returns (ok: bool)
      requires b.Valid() && Streamed(before)
      modifies b`p, b.x, b.fd
      ensures b.Valid()
      ensures ok ==> Streamed(before + Pack(keylen) + Pack(datalen))
      ensures old(b.fd.NeverFails()) ==> ok && b.fd.NeverFails()
    {
      hide Written, Pack;
      ok := PutMore(Pack(keylen) + Pack(datalen), before);
      assert before + (Pack(keylen) + Pack(datalen)) == before + Pack(keylen) + Pack(datalen);
    }

    /** Sends bytes behind those already sent. */
    method PutMore(bytes: seq<byte>, ghost before: seq<byte>) returns (ok: bool)
      requires b.Valid() && Streamed(before)
      modifies b`p, b.x, b.fd
      ensures b.Valid()
      ensures ok ==> Streamed(before + bytes)
      ensures old(b.fd.NeverFails()) ==> ok && b.fd.NeverFails()
    {
      hide Written, OutBuffer.Flushed;
      WrittenTwice(base, 8 * Tables(), before, bytes);
      ok := b.PutAlign(bytes);
    }

    /** `buffer_PUTC` on the maker's buffer. */
    method PutByte(c: byte, ghost before: seq<byte>) returns (ok: bool)
      requires b.Valid() && Streamed(before)
      modifies b`p, b.x, b.fd
      ensures b.Valid()
      ensures ok ==> Streamed(before + [c])
      ensures old(b.fd.NeverFails()) ==> ok && b.fd.NeverFails()
    {
      hide Written, OutBuffer.Flushed;
      WrittenTwice(base, 8 * Tables(), before, [c]);
      ok := b.PutC(c);
    }

    /** `cdb_make_addend`: remembers the entry and accounts for its bytes. */
    method AddEnd(keylen: uint32, datalen: uint32, h: uint32, ghost r: Record) returns (ok: bool)
      requires Valid()
      requires keylen == |r.key| && datalen == |r.data| && h == Hash(r.key)
      modifies this`head, this`numentries, this`pos, this`records
      ensures ok <==> Eod(Tables(), old(records) + [r]) < TWO32
      ensures ok ==> Valid() && records == old(records) + [r]
    {
      hide Hash, Eod, Entries, Pow2;
      ghost var rs := records + [r];
      EntriesCost(Tables(), records);
      EodAppend(Tables(), records, r);
      if Eod(Tables(), rs) < TWO32 {
        EntriesAppend(Tables(), records, r);
      }
      if head.Nil? || |head.hp| >= CDB_HPLIST {
        head := Block([], head);
      }
      head := Block(head.hp + [Hp(h, pos)], head.next);
      assert Contents(head) == old(Contents(head)) + [Hp(h, old(pos))];
      numentries := numentries + 1;
      ok := PosPlus(8);
      if !ok { return; }
      ok := PosPlus(keylen);
      if !ok { return; }
      ok := PosPlus(datalen);
      if !ok { return; }
      records := rs;
    }

    /** First pass of `cdb_make_finish`: the size of every bucket. */
    method CountEntries()
      requires Consistent()
      modifies count
      ensures Tally(Contents(head), Tables(), 0, count[..])
    {
      hide Bucket, TableOf, BitAnd, Pow2, Eod, Entries;
      EntriesCost(Tables(), records);
      for i := 0 to count.Length
        invariant forall j :: 0 <= j < i ==> count[j] == 0
      {
        count[i] := 0;
      }
      ghost var es, k := Contents(head), |Contents(head)|;
      assert es[k..] == [];
      var x := head;
      while x.Block?
        invariant 0 <= k <= |es| && Contents(x) == es[..k]
        invariant Tally(es, Tables(), k, count[..])
        decreases x
      {
        var i := |x.hp|;
        while i > 0
          invariant 0 <= i <= |x.hp| && 0 <= k <= |es| && Contents(x.next) + x.hp[..i] == es[..k]
          invariant Tally(es, Tables(), k, count[..])
        {
          i := i - 1;
          assert es[k - 1] == x.hp[i] && es[..k - 1] == Contents(x.next) + x.hp[..i];
          TallyStep(es, Tables(), k, count[..]);
          k := k - 1;
          var t := Masked(x.hp[i].h);
          count[t] := count[t] + 1;
        }
        assert x.hp[..0] == [] && Contents(x.next) + [] == Contents(x.next);
        x := x.next;
      }
    }

    /** (tables - 1) & h selects the table of h. */
    function Masked(h: uint32): (t: nat)
      ensures t == TableOf(h, Tables()) < Tables()
    {
      MaskIsRemainder(bits, h);
      BitAnd(Tables() - 1, h)
    }

    /** Size of the work area: the entries plus the largest table. */
    method WorkSize() returns (memsize: uint32)
      requires Consistent() && Tally(Contents(head), Tables(), 0, count[..])
      ensures memsize == numentries + Largest(Contents(head), Tables(), Tables())
    {
      hide Bucket, TableOf, Pow2, Eod;
      EntriesCost(Tables(), records);
      ghost var es := Contents(head);
      assert es[0..] == es;
      memsize := 1;
      for i := 0 to count.Length
        invariant memsize == Largest(es, Tables(), i) <= 2 * |es| + 1
      {
        assert count[i] == count[..][i];
        var u := count[i] * 2;
        if u > memsize {
          memsize := u;
        }
      }
      memsize := memsize + numentries;
    }

    /** The end of every bucket in the work area. */
    method PrefixSums()
      requires Consistent() && Tally(Contents(head), Tables(), 0, count[..])
      modifies start
      ensures forall t :: 0 <= t < Tables() ==> start[t] == CountBefore(Contents(head), Tables(), t + 1)
    {
      hide Bucket, TableOf, Pow2, Eod;
      EntriesCost(Tables(), records);
      ghost var es := Contents(head);
      assert es[0..] == es;
      var u: uint32 := 0;
      for i := 0 to count.Length
        invariant u == CountBefore(es, Tables(), i)
        invariant forall t :: 0 <= t < i ==> start[t] == CountBefore(es, Tables(), t + 1)
      {
        assert count[i] == count[..][i];
        CountBeforeBound(es, Tables(), i + 1);
        u := u + count[i];
        start[i] := u;
      }
    }

    /** Second pass: a stable counting sort. Every bucket ends up contiguous and in insertion order;
        only the first numentries places of the work area are written. */
    method Distribute(split: array<Hp>)
      requires Consistent() && numentries <= split.Length
      requires forall t :: 0 <= t < Tables() ==> start[t] == CountBefore(Contents(head), Tables(), t + 1)
      modifies start, split
      ensures Spread(Contents(head), Tables(), 0, start[..], split[..])
      ensures split[numentries..] == old(split[numentries..])
    {
      hide Bucket, TableOf, BitAnd, Pow2, Eod, Entries, CountBefore, SpreadAt;
      ghost var es, k := Contents(head), |Contents(head)|;
      SpreadInit(es, Tables(), start[..], split[..]);
      var x := head;
      while x.Block?
        invariant 0 <= k <= |es| && Contents(x) == es[..k]
        invariant Spread(es, Tables(), k, start[..], split[..])
        invariant split[numentries..] == old(split[numentries..])
        decreases x
      {
        var i := |x.hp|;
        while i > 0
          invariant 0 <= i <= |x.hp| && 0 <= k <= |es| && Contents(x.next) + x.hp[..i] == es[..k]
          invariant Spread(es, Tables(), k, start[..], split[..])
          invariant split[numentries..] == old(split[numentries..])
        {
          i := i - 1;
          assert es[k - 1] == x.hp[i] && es[..k - 1] == Contents(x.next) + x.hp[..i];
          SpreadStep(es, Tables(), k, start[..], split[..]);
          k := k - 1;
          var t := Masked(x.hp[i].h);
          start[t] := start[t] - 1;
          split[start[t]] := x.hp[i];
        }
        assert x.hp[..0] == [] && Contents(x.next) + [] == Contents(x.next);
        x := x.next;
      }
    }

    method ClearSlots(split: array<Hp>, len: nat)
      requires numentries + len <= split.Length
      modifies split
      ensures split[..numentries] == old(split[..numentries])
      ensures split[numentries..numentries + len] == seq(len, i => EMPTY)
    {
      for u := 0 to len
        invariant split[..numentries] == old(split[..numentries])
        invariant forall j :: numentries <= j < numentries + u ==> split[j] == EMPTY
      {
        split[numentries + u] := EMPTY;
      }
    }

    /** Inserts the bucket that starts at place `from` of the work area into the cleared hash area. */
    method InsertAll(split: array<Hp>, from: nat, n: nat, ghost bucket: seq<Hp>)
      requires n == |bucket| && from + n <= numentries && numentries + 2 * n <= split.Length
      requires split[from..from + n] == bucket
      requires forall k :: 0 <= k < |bucket| ==> bucket[k].p != 0
      requires split[numentries..numentries + 2 * n] == seq(2 * n, i => EMPTY)
      modifies split
      ensures split[..numentries] == old(split[..numentries])
      ensures split[numentries..numentries + 2 * n] == Fill(2 * n, bucket, Tables())
    {
      hide Pow2, Place;
      assert bucket[..0] == [];
      for u := 0 to n
        invariant split[..numentries] == old(split[..numentries])
        invariant split[numentries..numentries + 2 * n] == Fill(2 * n, bucket[..u], Tables())
      {
        assert split[from + u] == split[..numentries][from + u] == bucket[u] by {
          assert old(split[..numentries])[from + u] == old(split[from..from + n])[u];
        }
        assert bucket[..u + 1][..u] == bucket[..u];
        Insert(split, 2 * n, split[from + u], bucket[..u]);
      }
      assert bucket[..n] == bucket;
    }

    /** Fills the hash area of the work space with table t: clear it, then insert by linear probing. */
    method FillTable(split: array<Hp>, t: nat, ghost es: seq<Hp>)
      requires Consistent() && t < Tables() && es == Contents(head)
      requires Tally(es, Tables(), 0, count[..]) && Spread(es, Tables(), 0, start[..], split[..])
      requires numentries + |TableSlots(es, Tables(), t)| <= split.Length
      modifies split
      ensures split[..numentries] == old(split[..numentries])
      ensures split[numentries..numentries + |TableSlots(es, Tables(), t)|] == TableSlots(es, Tables(), t)
    {
      hide TableOf, Pow2, Eod, Entries, Bucket, Tally, Spread, Fill;
      EntriesCost(Tables(), records);
      BucketInSplit(es, Tables(), start[..], split[..], count[..], t);
      UsedPositions(t);
      var from, n := start[t], count[t];
      ghost var bucket, was := Bucket(es, Tables(), t), split[..];
      ClearSlots(split, n * 2);
      SliceOfFront(was, split[..], numentries, from, from + n);
      InsertAll(split, from, n, bucket);
    }

    method HomeSlot(h: uint32, len: nat) returns (where: nat)
      requires len > 0
      ensures where == Home(h, Tables(), len)
    {
      where := (h / Tables()) % len;
    }

    /** One insertion: the probing stops at a free slot before it has gone round. */
    method Insert(split: array<Hp>, len: nat, e: Hp, ghost placed: seq<Hp>)
      requires numentries + len <= split.Length && |placed| < len
      requires forall i :: 0 <= i < |placed| ==> placed[i].p != 0
      requires split[numentries..numentries + len] == Fill(len, placed, Tables())
      modifies split
      ensures split[..numentries] == old(split[..numentries])
      ensures split[numentries..numentries + len] == Place(Fill(len, placed, Tables()), e, Tables())
    {
      hide Pow2, Home;
      ghost var table := Fill(len, placed, Tables());
      ghost var w, d := Home(e.h, Tables(), len), 0;
      ProbeStops(len, placed, Tables(), w);
      var where := HomeSlot(e.h, len);
      while split[numentries + where].p != 0
        invariant 0 <= d <= ProbeFrom(table, w, 0) && where == Slot(w, d, len)
        decreases len - d
      {
        assert split[numentries..numentries + len][where] == split[numentries + where];
        d := d + 1;
        where := where + 1;
        if where == len {
          where := 0;
        }
      }
      assert split[numentries..numentries + len][where] == split[numentries + where];
      split[numentries + where] := e;
    }

    /** Every entry's position is behind the header, so it is never 0. */
    lemma {:induction false} UsedPositions(t: nat)
      requires Consistent() && t < Tables()
      ensures var b := Bucket(Contents(head), Tables(), t);
              forall k :: 0 <= k < |b| ==> b[k].p != 0
    {
      hide TableOf;
      var es := Contents(head);
      forall k | 0 <= k < |Bucket(es, Tables(), t)|
        ensures Bucket(es, Tables(), t)[k].p != 0
      {
        var i := BucketOwner(es, Tables(), t, k);
        EntriesAt(Tables(), records, i);
      }
    }

    /** Writes the hash area to the file. */
    method EmitSlots(split: array<Hp>, len: nat, ghost before: seq<byte>) returns (ok: bool)
      requires b.Valid() && Streamed(before) && numentries + len <= split.Length
      modifies this`pos, b`p, b.x, b.fd
      ensures b.Valid()
      ensures ok ==> Streamed(before + SlotBytes(split[numentries..numentries + len])) && pos == old(pos) + 8 * len
      ensures old(b.fd.NeverFails()) ==> b.fd.NeverFails() && (ok <==> old(pos) + 8 * len < TWO32)
    {
      hide Written, OutBuffer.Flushed, Pack, Pow2, Streamed;
      ghost var slots := split[numentries..numentries + len];
      assert before + SlotBytes(slots[..0]) == before;
      for u := 0 to len
        invariant b.Valid() && pos == old(pos) + 8 * u
        invariant Streamed(before + SlotBytes(slots[..u]))
        invariant old(b.fd.NeverFails()) ==> b.fd.NeverFails()
      {
        assert slots[u] == split[numentries + u];
        var e := split[numentries + u];
        ok := PutMore(Pack(e.h) + Pack(e.p), before + SlotBytes(slots[..u]));
        if !ok { return; }
        assert slots[..u + 1][..u] == slots[..u];
        assert before + SlotBytes(slots[..u]) + (Pack(e.h) + Pack(e.p)) == before + SlotBytes(slots[..u + 1]);
        ok := PosPlus(8);
        if !ok { return; }
      }
      assert slots[..len] == slots;
      return true;
    }

    /** The state in front of table i: the header pairs and the slots of the tables before it are done. */
    ghost predicate Emitted(split: array<Hp>, es: seq<Hp>, i: nat)
      requires Consistent() && i <= Tables() && es == Contents(head)
      reads this, b, b.x, b.fd, final, count, start, split
    {
      && numentries == |es| <= split.Length
      && Tally(es, Tables(), 0, count[..]) && Spread(es, Tables(), 0, start[..], split[..])
      && (forall t :: 0 <= t < Tables() ==> numentries + |TableSlots(es, Tables(), t)| <= split.Length)
      && pos == Eod(Tables(), records) + 16 * CountBefore(es, Tables(), i)
      && Streamed(DataArea(records) + SlotBytes(SlotsBefore(es, Tables(), i)))
      && PairsUpTo(Tables(), Eod(Tables(), records), es, i, final[..8 * i])
    }

    /** One turn of the last loop of `cdb_make_finish`: header pair, table, slots. */
    method EmitTable(split: array<Hp>, i: nat, ghost es: seq<Hp>) returns (ok: bool)
      requires Consistent() && i < Tables() && es == Contents(head)
      requires Emitted(split, es, i)
      modifies this`pos, final, split, b`p, b.x, b.fd
      ensures Consistent()
      ensures ok ==> Emitted(split, es, i + 1)
      ensures old(b.fd.NeverFails()) ==> b.fd.NeverFails()
      ensures old(b.fd.NeverFails()) ==>
              (ok <==> Eod(Tables(), records) + 16 * CountBefore(es, Tables(), i + 1) < TWO32)
    {
      hide Written, OutBuffer.Flushed, Streamed, PairsUpTo, TableSlots, SlotBytes, SlotsBefore, Pack, Pow2, Eod;
      hide Entries, Bucket, TableOf, Fill, Tally, Spread, DataArea, Contents, CountBefore;
      EntriesCost(Tables(), records);
      BucketInSplit(es, Tables(), start[..], split[..], count[..], i);
      var len := count[i] + count[i];
      WritePair(i, len, es);
      FillTable(split, i, es);
      SpreadFrame(es, Tables(), start[..], old(split[..]), split[..]);
      ghost var before := DataArea(records) + SlotBytes(SlotsBefore(es, Tables(), i));
      AreaGrows(DataArea(records), es, Tables(), i);
      ok := EmitSlots(split, len, before);
    }

    /** Packs the position and the slot count of table i into the header. */
    method WritePair(i: nat, len: uint32, ghost es: seq<Hp>)
      requires Consistent() && i < Tables()
      requires pos == Eod(Tables(), records) + 16 * CountBefore(es, Tables(), i) && len == 2 * |Bucket(es, Tables(), i)|
      requires PairsUpTo(Tables(), Eod(Tables(), records), es, i, final[..8 * i])
      modifies final
      ensures PairsUpTo(Tables(), Eod(Tables(), records), es, i + 1, final[..8 * (i + 1)])
    {
      hide Pack, Pow2, Eod, Entries, Bucket, CountBefore, Contents, DataArea;
      ghost var ps: seq<Hp> :| |ps| == i && final[..8 * i] == SlotBytes(ps) &&
        PairsAre(ps, Eod(Tables(), records), es, Tables());
      PackPair(final, 8 * i, pos, len);
      ghost var ps' := ps + [Hp(pos, len)];
      assert ps'[..|ps'| - 1] == ps;
      assert final[..8 * (i + 1)] == final[..8 * i] + final[8 * i..8 * i + 8];
      assert SlotBytes(ps) + (Pack(pos) + Pack(len)) == SlotBytes(ps');
    }

    /** All tables, one after the other. */
    method EmitTables(split: array<Hp>, ghost es: seq<Hp>) returns (ok: bool)
      requires Consistent() && es == Contents(head) && Emitted(split, es, 0)
      modifies this`pos, final, split, b`p, b.x, b.fd
      ensures Consistent()
      ensures ok ==> Emitted(split, es, Tables())
      ensures old(b.fd.NeverFails()) ==> b.fd.NeverFails()
      ensures old(b.fd.NeverFails()) ==> (ok <==> Fits(Tables(), records))
    {
      hide Written, OutBuffer.Flushed, Streamed, PairsUpTo, TableSlots, SlotBytes, SlotsBefore, Pack, Pow2, Eod;
      hide Entries, Bucket, Tally, Spread, DataArea, Contents, CountBefore;
      for i := 0 to Tables()
        invariant Consistent() && Emitted(split, es, i)
        invariant old(b.fd.NeverFails()) ==> b.fd.NeverFails()
      {
        ok := EmitTable(split, i, es);
        if !ok {
          CountBeforeMonotone(es, Tables(), i + 1, Tables());
          CountBeforeTotal(es, Tables());
          return;
        }
      }
      CountBeforeTotal(es, Tables());
      return true;
    }

    /** The last loop starts from the records alone. */
    lemma {:induction false} EmittedInit(split: array<Hp>, es: seq<Hp>)
      requires Valid() && Streamed(DataArea(records)) && es == Contents(head)
      requires split.Length == numentries + Largest(es, Tables(), Tables())
      requires Tally(es, Tables(), 0, count[..]) && Spread(es, Tables(), 0, start[..], split[..])
      ensures Emitted(split, es, 0)
    {
      hide Written, OutBuffer.Flushed, Tally, Spread, Pow2, Eod, Entries, Bucket, DataArea, Contents;
      forall t | 0 <= t < Tables()
        ensures |TableSlots(es, Tables(), t)| <= Largest(es, Tables(), Tables())
      {
        LargestBound(es, Tables(), t, Tables());
      }
      assert DataArea(records) + SlotBytes(SlotsBefore(es, Tables(), 0)) == DataArea(records);
      assert final[..8 * 0] == SlotBytes([]);
      assert PairsAre([], Eod(Tables(), records), es, Tables());
    }

    /** After the last loop the header area and the stream are the finished image. */
    lemma {:induction false} EmittedAll(split: array<Hp>, es: seq<Hp>)
      requires Consistent() && es == Contents(head) && Emitted(split, es, Tables())
      ensures Fits(Tables(), records)
      ensures Image(Tables(), records) ==
              final[..] + (DataArea(records) + SlotBytes(SlotsBefore(es, Tables(), Tables())))
    {
      hide Written, OutBuffer.Flushed, Tally, Spread, Pow2, Entries, Bucket, Contents, DataArea, SlotBytes, SlotsBefore;
      var tables, rs := Tables(), records;
      CountBeforeTotal(es, tables);
      assert final[..8 * tables] == final[..];
      var ps: seq<Hp> :| |ps| == tables && final[..] == SlotBytes(ps) && PairsAre(ps, Eod(tables, rs), es, tables);
      forall t | 0 <= t < tables
        ensures ps[t] == Pointers(tables, rs, tables)[t]
      {
        PointersAt(tables, rs, tables, t);
      }
      assert ps == Pointers(tables, rs, tables);
      SliceOfParts(SlotBytes(ps), DataArea(rs), SlotBytes(SlotsBefore(es, tables, tables)), Image(tables, rs));
    }

    /** The end of `cdb_make_finish`: flush, go back to the beginning, write the header. */
    method WriteHeader(ghost body: seq<byte>) returns (ok: bool)
      requires b.Valid() && final.Length == 8 * Tables() && final != b.x && Streamed(body)
      modifies b`p, b.fd
      ensures ok ==> b.fd.content == Written(base, 0, final[..] + body)
      ensures old(b.fd.NeverFails()) ==> ok
    {
      hide Written, Pow2;
      ok := b.Flush();
      if !ok { return; }
      WrittenHeadLast(base, final[..], body);
      assert b.x[..b.p] == [];
      b.fd.SeekSet(0);
      WrittenNone(b.fd.content, 0);
      ok := b.PutFlush(final[..]);
    }

    /** `cdb_make_finish`. If no write fails, it succeeds exactly when the file fits 32-bit positions,
        and then the file is the image of the records added. */
    method Finish() returns (ok: bool)
      requires Valid() && Streamed(DataArea(records))
      modifies this`pos, count, start, final, b`p, b.x, b.fd
      ensures ok ==> Fits(Tables(), records) && b.fd.content == Written(base, 0, Image(Tables(), records))
      ensures old(b.fd.NeverFails()) ==> (ok <==> Fits(Tables(), records))
      ensures records == old(records)
    {
      hide Written, Sent, Streamed, OutBuffer.Flushed, PairsUpTo, TableSlots, SlotBytes, SlotsBefore, Pack, Pow2, Eod;
      hide Entries, Bucket, Tally, Spread, DataArea, Contents, CountBefore, Image;
      ghost var es := Contents(head);
      CountEntries();
      var memsize := WorkSize();
      EntriesCost(Tables(), records);
      if memsize > (TWO32 - 1) / 8 { return false; }
      var split := new Hp[memsize](_ => EMPTY);
      PrefixSums();
      Distribute(split);
      EmittedInit(split, es);
      ok := EmitTables(split, es);
      if !ok { return; }
      EmittedAll(split, es);
      ok := WriteHeader(DataArea(records) + SlotBytes(SlotsBefore(es, Tables(), Tables())));
    }

    /** `cdb_make_add`. */
    method Add(key: Bytes, data: Bytes) returns (ok: bool)
      requires Valid() && Streamed(DataArea(records))
      modifies this`head, this`numentries, this`pos, this`records, b`p, b.x, b.fd
      ensures ok ==> Valid() && records == old(records) + [Record(key, data)] && Streamed(DataArea(records))
      ensures old(b.fd.NeverFails()) ==> b.fd.NeverFails()
      ensures old(b.fd.NeverFails()) ==> (ok <==> Eod(Tables(), old(records) + [Record(key, data)]) < TWO32)
    {
      hide Written, OutBuffer.Flushed, Pack, Hash, Eod, Entries, DataArea, Pow2, Contents;
      ghost var area := DataArea(records);
      ghost var r := Record(key, data);
      DataAreaAppend(records, r);
      assert area + Pack(|key|) + Pack(|data|) + key + data == area + RecordBytes(r);
      ok := AddBegin(|key|, |data|, area);
      if !ok { return; }
      ok := PutMore(key, area + Pack(|key|) + Pack(|data|));
      if !ok { return; }
      ok := PutMore(data, area + Pack(|key|) + Pack(|data|) + key);
      if !ok { return; }
      var h := ComputeHash(key);
      ok := AddEnd(|key|, |data|, h, r);
    }
  }

  /** Every record costs at least eight bytes of the record area. */
  lemma {:induction false} EntriesCost(tables: nat, rs: seq<Record>)
    ensures 8 * tables + 8 * |rs| <= Eod(tables, rs)
  {
    if rs != [] {
      EntriesCost(tables, rs[..|rs| - 1]);
    }
  }
}
