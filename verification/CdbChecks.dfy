/** The self-checks over a finished file: `cdbtest`, `cdbstats`, `cdbnumrecs`. */
module CdbChecks {
  import opened Words
  import opened CdbHash
  import opened CdbFormat
  import opened CdbLookup
  import opened CdbReader
  import opened CdbTraverse
  import opened CdbTools
  import opened Buffers

  const KEY_SIZE := 1024

  /** Whether an earlier record has the key of record i. */
  predicate Repeated(rs: seq<Record>, i: nat)
    requires i < |rs|
  {
    exists j :: 0 <= j < i && rs[j].key == rs[i].key
  }

  /** Among the first n records, how many have a key too long to test. */
  function Untested(rs: seq<Record>, n: nat): (k: nat)
    requires n <= |rs|
    ensures k <= n
  {
    if n == 0 then 0 else Untested(rs, n - 1) + if |rs[n - 1].key| > 1024 then 1 else 0
  }

  /** Among the first n records, how many testable ones repeat an earlier key. */
  function Repeats(rs: seq<Record>, n: nat): (k: nat)
    requires n <= |rs|
    ensures Untested(rs, n) + k <= n
  {
    if n == 0 then 0 else
    Repeats(rs, n - 1) + if |rs[n - 1].key| <= 1024 && Repeated(rs, n - 1) then 1 else 0
  }

  /** The tallies of `cdbtest`. */
  datatype Tallies = Tallies(found: nat, otherpos: nat, badlen: nat, notfound: nat, untested: nat)

  /** What `cdbtest` must count after n records of a sound database. */
  function Sound(rs: seq<Record>, n: nat): Tallies
    requires n <= |rs|
  {
    Tallies(n - Untested(rs, n) - Repeats(rs, n), Repeats(rs, n), 0, 0, Untested(rs, n))
  }

  /** How many of the first n numbers have the property. */
  ghost function HowMany(p: nat -> bool, n: nat): nat { |set i: nat | i < n && p(i)| }

  lemma {:induction false} HowManyNext(p: nat -> bool, n: nat)
    ensures HowMany(p, 0) == 0 && HowMany(p, n + 1) == HowMany(p, n) + if p(n) then 1 else 0
  {
    assert (set i: nat | i < 0 && p(i)) == {};
    assert (set i: nat | i < n + 1 && p(i)) == (set i: nat | i < n && p(i)) + if p(n) then {n} else {};
  }

  ghost function LongKey(rs: seq<Record>): nat -> bool {
    (i: nat) => i < |rs| && |rs[i].key| > 1024
  }

  ghost function RepeatedKey(rs: seq<Record>): nat -> bool {
    (i: nat) => i < |rs| && |rs[i].key| <= 1024 && exists j :: 0 <= j < i && rs[j].key == rs[i].key
  }

  /** What the five numbers are on a sound database: nothing is missing or of a wrong length, "untested" counts the
      records with long keys, "different record" those that repeat an earlier key, and all others are found. */
  lemma {:induction false} SoundExactly(rs: seq<Record>, n: nat)
    requires n <= |rs|
    ensures var t := Sound(rs, n);
            && t.notfound == 0 && t.badlen == 0
            && t.untested == HowMany(LongKey(rs), n) && t.otherpos == HowMany(RepeatedKey(rs), n)
            && t.found + t.otherpos + t.untested == n
  {
    hide HowMany;
    HowManyNext(LongKey(rs), if n > 0 then n - 1 else 0);
    HowManyNext(RepeatedKey(rs), if n > 0 then n - 1 else 0);
    if n > 0 {
      SoundExactly(rs, n - 1);
    }
  }

  /** Reading and looking up share nothing but the file. */
  ghost predicate Rest(tables: nat, rs: seq<Record>, i: nat, s: seq<byte>)
    requires i <= |rs| && Fits(tables, rs)
  {
    PosOf(tables, rs, i) <= |Image(tables, rs)| && s == Image(tables, rs)[PosOf(tables, rs, i)..]
  }

  /** What the next bytes are when i records have been read. */
  lemma {:induction false} NextBytes(tables: nat, rs: seq<Record>, i: nat, s: seq<byte>)
    requires Fits(tables, rs) && i < |rs| && Rest(tables, rs, i, s)
    ensures var k, d := |rs[i].key|, |rs[i].data|;
            && |s| >= 8 + k + d
            && s[..4] == Pack(k) && s[4..8] == Pack(d) && s[8..8 + k] == rs[i].key
            && Rest(tables, rs, i + 1, s[8 + k + d..])
            && PosOf(tables, rs, i + 1) == PosOf(tables, rs, i) + 8 + k + d < TWO32
  {
    hide Image, Pack, PosOf;
    ImageRecord(tables, rs, i);
    var f, p := Image(tables, rs), PosOf(tables, rs, i);
    var k, d := |rs[i].key|, |rs[i].data|;
    assert s[..4] == f[p..p + 4] && s[4..8] == f[p + 4..p + 8];
    assert s[8..8 + k] == f[p + 8..p + 8 + k];
    assert s[8 + k + d..] == f[p + 8 + k + d..];
  }

  /** Where reading starts. */
  lemma {:induction false} StartReading(tables: nat, rs: seq<Record>)
    requires Fits(tables, rs)
    ensures 8 * tables <= |Image(tables, rs)|
    ensures Unpack(Image(tables, rs)[..4]) == Eod(tables, rs) < TWO32
    ensures PosOf(tables, rs, 0) == 8 * tables
    ensures Rest(tables, rs, 0, Image(tables, rs)[8 * tables..])
  {
    hide Unpack, Image;
    FirstWordIsEod(tables, rs);
    HeaderInside(tables, rs);
    assert rs[..0] == [];
  }

  /** Two lengths and a key. */
  method ReadRecordHead(bin: InBuffer) returns (ok: bool, klen: uint32, dlen: uint32, key: Bytes)
    requires bin.Valid()
    modifies bin`p, bin`n, bin.x, bin.fd`offset, bin.fd`script
    ensures bin.Valid()
    ensures ok ==> |key| == klen && old(bin.Remaining()) == Pack(klen) + Pack(dlen) + key + bin.Remaining()
    ensures old(bin.fd.NeverFails()) ==> bin.fd.NeverFails()
    ensures old(bin.fd.NeverFails()) ==>
              (ok <==> |old(bin.Remaining())| >= 8 && |old(bin.Remaining())| >= 8 + Unpack(old(bin.Remaining())[..4]))
  {
    hide InBuffer.Remaining, Pack, Unpack;
    ghost var s := bin.Remaining();
    klen, dlen, key := 0, 0, [];
    ok, klen := GetNum(bin);
    if !ok { return; }
    UnpackPack(klen);
    assert s[..4] == Pack(klen);
    ok, dlen := GetNum(bin);
    if !ok { return; }
    ghost var more := bin.Remaining();
    assert s == Pack(klen) + Pack(dlen) + more;
    var buf;
    ok, buf := GetBytes(bin, klen);
    if !ok { return; }
    key := buf;
    assert Pack(klen) + Pack(dlen) + (key + bin.Remaining()) == Pack(klen) + Pack(dlen) + key + bin.Remaining();
  }

  /** In a finished file these are the lengths and the key of record i. */
  lemma {:induction false} HeadOfRecord(tables: nat, rs: seq<Record>, i: nat, s: seq<byte>, klen: uint32,
      dlen: uint32, key: Bytes, rest: seq<byte>)
    requires Fits(tables, rs) && i < |rs| && Rest(tables, rs, i, s)
    requires |key| == klen && s == Pack(klen) + Pack(dlen) + key + rest
    ensures key == rs[i].key && dlen == |rs[i].data| <= |rest| && rest[dlen..] == s[8 + klen + dlen..]
  {
    hide Pack, Rest, Unpack;
    NextBytes(tables, rs, i, s);
    assert s[..4] == Pack(klen) && s[4..8] == Pack(dlen) && s[8..8 + klen] == key;
    UnpackPack(klen);
    UnpackPack(dlen);
    UnpackPack(|rs[i].key|);
    UnpackPack(|rs[i].data|);
  }

  /** Reads the lengths and the key of the next record; with `fin`, those of record i. */
  method NextHead(bin: InBuffer, ghost fin: bool, ghost tables: nat, ghost rs: seq<Record>, ghost i: nat)
    returns (ok: bool, klen: uint32, dlen: uint32, key: Bytes)
    requires bin.Valid()
    requires fin ==> Fits(tables, rs) && i < |rs| && Rest(tables, rs, i, bin.Remaining())
    modifies bin`p, bin`n, bin.x, bin.fd`offset, bin.fd`script
    ensures bin.Valid() && (ok ==> |key| == klen && |bin.Remaining()| < |old(bin.Remaining())|)
    ensures ok && fin ==> key == rs[i].key && dlen == |rs[i].data| <= |bin.Remaining()|
    ensures ok && fin ==> Rest(tables, rs, i + 1, bin.Remaining()[dlen..])
    ensures fin ==> PosOf(tables, rs, i + 1) == PosOf(tables, rs, i) + 8 + |rs[i].key| + |rs[i].data| < TWO32
    ensures old(bin.fd.NeverFails()) ==> bin.fd.NeverFails() && (fin ==> ok)
  {
    hide InBuffer.Remaining, Image, PosOf, Pack, Unpack, Fits, Rest;
    ghost var s := bin.Remaining();
    if fin {
      NextBytes(tables, rs, i, s);
      UnpackPack(|rs[i].key|);
    }
    ok, klen, dlen, key := ReadRecordHead(bin);
    if ok && fin {
      HeadOfRecord(tables, rs, i, s, klen, dlen, key, bin.Remaining());
    }
  }

  /** Reads past the data of a record. */
  method SkipData(bin: InBuffer, dlen: nat) returns (ok: bool)
    requires bin.Valid()
    modifies bin`p, bin`n, bin.x, bin.fd`offset, bin.fd`script
    ensures bin.Valid()
    ensures ok ==> dlen <= |old(bin.Remaining())| && bin.Remaining() == old(bin.Remaining())[dlen..]
    ensures old(bin.fd.NeverFails()) ==> bin.fd.NeverFails() && (ok <==> dlen <= |old(bin.Remaining())|)
  {
    hide InBuffer.Remaining;
    var skipped;
    ok, skipped := GetBytes(bin, dlen);
  }

  /** Looking up a testable key finds the record itself exactly if no earlier record has its key. */
  lemma {:induction false} FirstOfKey(rs: seq<Record>, i: nat)
    requires i < |rs|
    ensures var m := Matches(rs, rs[i].key); m != [] && (m[0] == i <==> !Repeated(rs, i))
  {
    SuccessorSteps(rs, i);
    MatchesComplete(rs, rs[i].key, i);
  }

  /** The lookup of one record by its own key, and the tally it goes to. */
  method TestKey(c: Reader, key: Bytes, pos: uint32, dlen: uint32, t: Tallies, ghost rs: seq<Record>, ghost i: nat)
    returns (ok: bool, t': Tallies)
    requires 0 < c.tables <= 0x1000_0000
    modifies c
    ensures c.Finished(rs) && i < |rs| && key == rs[i].key && dlen == |rs[i].data| &&
            pos == PosOf(c.tables, rs, i) + 8 + |key| ==>
              ok && t' == if Repeated(rs, i) then t.(otherpos := t.otherpos + 1) else t.(found := t.found + 1)
  {
    hide Image, PosOf, Hash, Matches, Reader.FoundSomewhere, Reader.Searching;
    if i < |rs| {
      FirstOfKey(rs, i);
    }
    var r := c.Find(key, rs);
    if c.Finished(rs) && i < |rs| && key == rs[i].key && Repeated(rs, i) {
      PosOfDistinct(c.tables, rs, i, Matches(rs, key)[0]);
    }
    t' := t;
    if r == -1 { return false, t'; }
    if r == 0 { return true, t.(notfound := t.notfound + 1); }
    if c.dpos != pos { return true, t.(otherpos := t.otherpos + 1); }
    if c.dlen != dlen { return true, t.(badlen := t.badlen + 1); }
    return true, t.(found := t.found + 1);
  }

  /** `cdbtest`: on a finished file nothing is missing or of a wrong length, and the records found
      elsewhere are exactly the testable ones whose key was added before. */
  method Test(bin: InBuffer, c: Reader, ghost rs: seq<Record>) returns (ok: bool, t: Tallies)
    requires bin.Valid() && 0 < c.tables <= 0x1000_0000
    modifies c, bin`p, bin`n, bin.x, bin.fd`offset, bin.fd`script
    ensures ok && c.Finished(rs) && old(bin.Remaining()) == c.file ==> t == Sound(rs, |rs|)
    ensures old(bin.fd.NeverFails()) && c.Finished(rs) && old(bin.Remaining()) == c.file ==> ok
  {
    hide InBuffer.Remaining, Image, PosOf, Hash, Pack, Unpack, Fits, Rest;
    ghost var fin := c.Finished(rs) && bin.Remaining() == c.file;
    t := Tallies(0, 0, 0, 0, 0);
    if fin { StartReading(c.tables, rs); }
    var eod; ghost var head;
    ok, eod, head := SkipHeader(bin, c.tables);
    if !ok { return; }
    var pos: uint32 := 8 * c.tables;
    ghost var i := 0;
    assert fin ==> c.file[..4] == head[..4] && c.file[8 * c.tables..] == bin.Remaining();
    while pos < eod
      invariant bin.Valid()
      invariant fin ==> i <= |rs| && Rest(c.tables, rs, i, bin.Remaining()) && pos == PosOf(c.tables, rs, i)
      invariant fin ==> t == Sound(rs, i)
      invariant old(bin.fd.NeverFails()) ==> bin.fd.NeverFails()
      decreases |bin.Remaining()|
    {
      if fin { PosOfEnd(c.tables, rs, i); }
      var klen, dlen, key;
      ok, klen, dlen, key := NextHead(bin, fin, c.tables, rs, i);
      if !ok { return; }
      if klen > KEY_SIZE {
        t := t.(untested := t.untested + 1);
      } else {
        ok, t := TestKey(c, key, Wrap(pos + 8 + klen), dlen, t, rs, i);
        if !ok { return; }
      }
      ok := SkipData(bin, dlen);
      if !ok { return; }
      pos := Wrap(pos + 8 + klen + dlen);
      i := i + 1;
    }
    if fin { PosOfEnd(c.tables, rs, i); }
    return true, t;
  }

  /** The inner loop of `cdbstats`: repeated lookups until the record itself comes up. On a finished
      file it always does. */
  method SeekRecord(c: Reader, key: Bytes, pos: uint32, ghost rs: seq<Record>, ghost i: nat) returns (ok: bool)
    requires 0 < c.tables <= 0x1000_0000
    modifies c
    ensures ok ==> c.loop > 0 && c.dpos == pos
    ensures c.Finished(rs) && i < |rs| && key == rs[i].key && pos == PosOf(c.tables, rs, i) + 8 + |key| ==>
              ok && c.Found(rs, i) && c.loop == Depth(c.tables, rs, i) + 1
  {
    hide Image, PosOf, Hash, Matches, Reader.FoundSomewhere, Reader.Searching, Fits, Depth;
    ghost var fin := c.Finished(rs) && i < |rs| && key == rs[i].key && pos == PosOf(c.tables, rs, i) + 8 + |key|;
    ghost var k, last := 0, 0;
    if fin {
      MatchesComplete(rs, key, i);
      last :| 0 <= last < |Matches(rs, key)| && Matches(rs, key)[last] == i;
    }
    c.FindStart(rs, key);
    var first := true;
    while true
      invariant first || 0 < c.loop <= c.hslots
      invariant fin ==> k <= last < |Matches(rs, key)| && Matches(rs, key)[last] == i && c.Searching(rs, key, k)
      decreases first, c.hslots - c.loop
    {
      var r := c.FindNext(key, rs, k);
      if r < 1 { return false; }
      if fin && Matches(rs, key)[k] != i {
        PosOfDistinct(c.tables, rs, i, Matches(rs, key)[k]);
      }
      if c.dpos == pos { return true; }
      k := k + 1;
      first := false;
    }
  }

  function Sum(s: seq<nat>): nat {
    if s == [] then 0 else Sum(s[..|s| - 1]) + s[|s| - 1]
  }

  lemma {:induction false} SumStep(s: seq<nat>, i: nat)
    requires i < |s|
    ensures Sum(s[i := s[i] + 1]) == Sum(s) + 1
  {
    var n := |s| - 1;
    var s' := s[i := s[i] + 1];
    if i < n {
      SumStep(s[..n], i);
      assert s'[..n] == s[..n][i := s[..n][i] + 1];
    } else {
      assert s'[..n] == s[..n];
    }
  }

  /** The bin of record i: how many probes are wasted on the way to it; the last bin is for ten and more. */
  ghost function BinOf(tables: nat, rs: seq<Record>, i: nat): (b: nat)
    requires Fits(tables, rs) && i < |rs|
    ensures b < 11
  {
    if Depth(tables, rs, i) >= 10 then 10 else Depth(tables, rs, i)
  }

  /** Among the first n records, how many testable ones belong in bin b. */
  ghost function InBin(tables: nat, rs: seq<Record>, n: nat, b: nat): nat
    requires Fits(tables, rs) && n <= |rs|
  {
    if n == 0 then 0 else
    InBin(tables, rs, n - 1, b) + if |rs[n - 1].key| <= 1024 && BinOf(tables, rs, n - 1) == b then 1 else 0
  }

  /** A testable record that is met after b wasted probes, for the last bin after ten or more. */
  ghost function Wasted(tables: nat, rs: seq<Record>, b: nat): nat -> bool
    requires Fits(tables, rs)
  {
    (i: nat) => i < |rs| && |rs[i].key| <= 1024 && (Depth(tables, rs, i) == b < 10 || Depth(tables, rs, i) >= 10 == b)
  }

  lemma {:induction false} InBinExactly(tables: nat, rs: seq<Record>, n: nat, b: nat)
    requires Fits(tables, rs) && n <= |rs| && b < 11
    ensures InBin(tables, rs, n, b) == HowMany(Wasted(tables, rs, b), n)
  {
    hide Fits, Depth, HowMany;
    HowManyNext(Wasted(tables, rs, b), if n > 0 then n - 1 else 0);
    if n > 0 {
      InBinExactly(tables, rs, n - 1, b);
    }
  }

  ghost predicate Histogram(tables: nat, rs: seq<Record>, n: nat, numd: seq<nat>)
    requires Fits(tables, rs) && n <= |rs|
  {
    |numd| == 11 && forall b :: 0 <= b < 11 ==> numd[b] == InBin(tables, rs, n, b)
  }

  lemma HistogramStep(tables: nat, rs: seq<Record>, i: nat, numd: seq<nat>)
    requires Fits(tables, rs) && i < |rs| && Histogram(tables, rs, i, numd)
    ensures var d := BinOf(tables, rs, i);
            Histogram(tables, rs, i + 1, if |rs[i].key| <= KEY_SIZE then numd[d := numd[d] + 1] else numd)
  {
    hide BinOf, Fits;
  }

  lemma HistogramStart(tables: nat, rs: seq<Record>)
    requires Fits(tables, rs)
    ensures Histogram(tables, rs, 0, seq(11, _ => 0))
  {
  }

  /** One testable record: found, counted and put into its bin. */
  method Measure(c: Reader, key: Bytes, pos: uint32, numd: seq<nat>, ghost rs: seq<Record>, ghost i: nat)
    returns (ok: bool, more: seq<nat>)
    requires 0 < c.tables <= 0x1000_0000 && |numd| == 11 && |key| <= KEY_SIZE
    modifies c
    ensures |more| == 11 && (ok ==> Sum(more) == Sum(numd) + 1)
    ensures c.Finished(rs) && i < |rs| && key == rs[i].key && pos == PosOf(c.tables, rs, i) + 8 + |key| ==>
              ok && (Histogram(c.tables, rs, i, numd) ==> Histogram(c.tables, rs, i + 1, more))
  {
    hide Image, PosOf, Hash, Reader.Found, Depth, Sum, Histogram, Fits;
    more := numd;
    ok := SeekRecord(c, key, pos, rs, i);
    if !ok { return; }
    var d := if c.loop > 10 then 10 else c.loop - 1;
    SumStep(numd, d);
    more := numd[d := numd[d] + 1];
    if c.Finished(rs) && i < |rs| && key == rs[i].key && pos == PosOf(c.tables, rs, i) + 8 + |key| {
      if Histogram(c.tables, rs, i, numd) {
        HistogramStep(c.tables, rs, i, numd);
      }
    }
  }

  /** `cdbstats`: never gives up on a finished file, and every testable record is in its bin of the histogram. */
  method Stats(bin: InBuffer, c: Reader, ghost rs: seq<Record>) returns (ok: bool, numrecords: nat, numd: seq<nat>)
    requires bin.Valid() && 0 < c.tables <= 0x1000_0000
    modifies c, bin`p, bin`n, bin.x, bin.fd`offset, bin.fd`script
    ensures ok ==> |numd| == 11 && Sum(numd) == numrecords
    ensures ok && c.Finished(rs) && old(bin.Remaining()) == c.file ==>
              numrecords == |rs| - Untested(rs, |rs|) && Histogram(c.tables, rs, |rs|, numd)
    ensures old(bin.fd.NeverFails()) && c.Finished(rs) && old(bin.Remaining()) == c.file ==> ok
  {
    hide InBuffer.Remaining, Image, PosOf, Hash, Pack, Unpack, Fits, Rest, Sum, Histogram;
    ghost var fin := c.Finished(rs) && bin.Remaining() == c.file;
    numrecords, numd := 0, seq(11, _ => 0);
    ElevenZeros();
    if fin { StartReading(c.tables, rs); HistogramStart(c.tables, rs); }
    var eod; ghost var head;
    ok, eod, head := SkipHeader(bin, c.tables);
    if !ok { return; }
    var pos: uint32 := 8 * c.tables;
    ghost var i := 0;
    assert fin ==> c.file[..4] == head[..4] && c.file[8 * c.tables..] == bin.Remaining();
    while pos < eod
      invariant bin.Valid() && |numd| == 11 && Sum(numd) == numrecords
      invariant fin ==> i <= |rs| && Rest(c.tables, rs, i, bin.Remaining()) && pos == PosOf(c.tables, rs, i)
      invariant fin ==> numrecords == i - Untested(rs, i) && Histogram(c.tables, rs, i, numd)
      invariant old(bin.fd.NeverFails()) ==> bin.fd.NeverFails()
      decreases |bin.Remaining()|
    {
      if fin { PosOfEnd(c.tables, rs, i); }
      var klen, dlen, key;
      ok, klen, dlen, key := NextHead(bin, fin, c.tables, rs, i);
      if !ok { return; }
      if klen <= KEY_SIZE {
        ok, numd := Measure(c, key, Wrap(pos + 8 + klen), numd, rs, i);
        if !ok { return; }
        numrecords := numrecords + 1;
      } else if fin {
        HistogramStep(c.tables, rs, i, numd);
      }
      ok := SkipData(bin, dlen);
      if !ok { return; }
      pos := Wrap(pos + 8 + klen + dlen);
      i := i + 1;
    }
    if fin { PosOfEnd(c.tables, rs, i); }
    return true, numrecords, numd;
  }

  lemma ElevenZeros()
    ensures Sum(seq(11, _ => 0)) == 0
  {
    ZerosSum(11);
  }

  lemma {:induction false} ZerosSum(n: nat)
    ensures Sum(seq(n, _ => 0)) == 0
  {
    if n > 0 {
      ZerosSum(n - 1);
      assert seq(n, _ => 0)[..n - 1] == seq(n - 1, _ => 0);
    }
  }

  /** `cdbnumrecs` prints the number of slots of a finished file, which is twice the number of records;
      it is the number of records only for the empty database. */
  method NumRecs(bin: InBuffer, c: Reader, ghost rs: seq<Record>) returns (ok: bool, numrecords: nat)
    requires bin.Valid()
    modifies bin`p, bin`n, bin.x, bin.fd`offset, bin.fd`script
    ensures ok && c.Finished(rs) && old(bin.Remaining()) == c.file ==>
              numrecords == 2 * |rs| && (numrecords == |rs| <==> rs == [])
    ensures old(bin.fd.NeverFails()) && c.Finished(rs) && old(bin.Remaining()) == c.file ==> ok
  {
    hide InBuffer.Remaining, Pack, Unpack, Image, Fits;
    ghost var s := bin.Remaining();
    if c.Finished(rs) && s == c.file {
      SlotCount(c.tables, rs);
    }
    numrecords := 0;
    var eod;
    ok, eod := GetNum(bin);
    if !ok { return; }
    UnpackPack(eod);
    assert s[0..4] == Pack(eod);
    numrecords := Wrap(|c.file| - eod) / 8;
  }

  /** Behind the records a finished file has two slots per record. */
  lemma {:induction false} SlotCount(tables: nat, rs: seq<Record>)
    requires Fits(tables, rs)
    ensures var f := Image(tables, rs); |f| >= 8 && Wrap(|f| - Unpack(f[0..4])) / 8 == 2 * |rs|
  {
    hide Unpack;
    FirstWordIsEod(tables, rs);
  }
}
