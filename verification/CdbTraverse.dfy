/** Walking the records of a file in order (cdb/cdb_traverse.c). */
module CdbTraverse {
  import opened Wrappers
  import opened Words
  import opened Sequences
  import opened CdbHash
  import opened CdbFormat
  import opened CdbLookup
  import opened CdbReader

  /** The first word of a finished file is where its records end. */
  lemma {:induction false} FirstWordIsEod(tables: nat, rs: seq<Record>)
    requires Fits(tables, rs)
    ensures |Image(tables, rs)| >= 8 && Unpack(Image(tables, rs)[0..4]) == Eod(tables, rs) < TWO32
  {
    hide Bucket, Pack, Unpack, Image;
    ImagePointer(tables, rs, 0);
    UnpackPack(TablePos(tables, rs, 0));
  }

  lemma {:induction false} PosOfEnd(tables: nat, rs: seq<Record>, i: nat)
    requires i <= |rs|
    ensures PosOf(tables, rs, i) <= Eod(tables, rs)
    ensures i < |rs| ==> PosOf(tables, rs, i) + 8 <= Eod(tables, rs)
    ensures i == |rs| ==> PosOf(tables, rs, i) == Eod(tables, rs)
  {
    if i < |rs| {
      DataAreaAt(rs, i);
    } else {
      assert rs[..i] == rs;
    }
  }

  /** The reader stands on record i: kpos and dpos are its key and its data. */
  ghost predicate AtRecord(c: Reader, rs: seq<Record>, i: nat)
    requires i < |rs|
    reads c
  {
    c.kpos == PosOf(c.tables, rs, i) + 8 && c.Found(rs, i)
  }

  lemma {:induction false} AtRecordReads(c: Reader, rs: seq<Record>, i: nat)
    requires i < |rs| && c.Finished(rs) && AtRecord(c, rs, i)
    ensures c.kpos <= c.dpos && c.dpos + c.dlen <= |c.file|
    ensures Record(c.file[c.kpos..c.dpos], c.file[c.dpos..c.dpos + c.dlen]) == rs[i]
  {
    hide Image, Fits, PosOf, Unpack;
    c.RecordReads(rs, i);
  }

  /** What `doit` reads at record i of a finished file. */
  lemma {:induction false} RecordHead(c: Reader, rs: seq<Record>, i: nat)
    requires i < |rs| && c.Finished(rs)
    ensures var p, r := PosOf(c.tables, rs, i), rs[i];
            && p + 8 + |r.key| + |r.data| == PosOf(c.tables, rs, i + 1) <= |c.file| < TWO32
            && PosOf(c.tables, rs, i) + 8 <= Eod(c.tables, rs)
            && Unpack(c.file[p..p + 8][..4]) == |r.key| && Unpack(c.file[p..p + 8][4..8]) == |r.data|
            && c.file[p + 8 + |r.key|..p + 8 + |r.key| + |r.data|] == r.data
  {
    hide Image, PosOf, Unpack, Eod;
    var p := PosOf(c.tables, rs, i);
    c.RecordReads(rs, i);
    ImageRecord(c.tables, rs, i);
    PosOfEnd(c.tables, rs, i);
    SliceSlice(c.file, p, p + 8, 0, 4);
    SliceSlice(c.file, p, p + 8, 4, 8);
  }

  /** `doit`: on a finished file, one record per call and 0 behind the last. */
  method DoIt(c: Reader, at: uint32, ghost rs: seq<Record>, ghost i: nat) returns (r: int, next: uint32)
    requires c.tables > 0
    modifies c
    ensures r == -1 || r == 0 || r == 1
    ensures c.Finished(rs) && i < |rs| && at == PosOf(c.tables, rs, i) ==>
              r == 1 && next == PosOf(c.tables, rs, i + 1) && AtRecord(c, rs, i)
    ensures c.Finished(rs) && i == |rs| && at == PosOf(c.tables, rs, i) ==> r == 0
  {
    hide Image, Unpack, PosOf, Eod, Fits, Wrap;
    next := at;
    ghost var fin := c.Finished(rs) && i <= |rs| && at == PosOf(c.tables, rs, i);
    if fin {
      FirstWordIsEod(c.tables, rs);
      PosOfEnd(c.tables, rs, i);
      if i < |rs| {
        RecordHead(c, rs, i);
        WrapSmall(at + 8);
        WrapSmall(at + 8 + |rs[i].key|);
        WrapSmall(at + 8 + |rs[i].key| + |rs[i].data|);
      }
    }
    var ok, buf := c.Read(4, 0);
    if !ok { return -1, next; }
    var eod := Unpack(buf);
    if eod < 8 || eod - 8 < at { return 0, next; }
    c.kpos := Wrap(at + 8);
    if c.kpos < at { return -1, next; }
    c.FindStart([], []);
    c.hslots := 1;
    ok, buf := c.Read(8, at);
    if !ok { return -1, next; }
    var klen := Unpack(buf[..4]);
    c.dlen := Unpack(buf[4..8]);
    c.dpos := Wrap(c.kpos + klen);
    next := Wrap(at + 8 + klen + c.dlen);
    return 1, next;
  }

  /** `cdb_firstkey`. */
  method FirstKey(c: Reader, ghost rs: seq<Record>) returns (r: int, next: uint32)
    requires 0 < c.tables <= 0x1000_0000
    modifies c
    ensures r == -1 || r == 0 || r == 1
    ensures c.Finished(rs) ==>
              if rs == [] then r == 0 else r == 1 && next == PosOf(c.tables, rs, 1) && AtRecord(c, rs, 0)
  {
    assert PosOf(c.tables, rs, 0) == 8 * c.tables;
    r, next := DoIt(c, 8 * c.tables, rs, 0);
  }

  /** `cdb_nextkey`. */
  method NextKey(c: Reader, at: uint32, ghost rs: seq<Record>, ghost i: nat) returns (r: int, next: uint32)
    requires 0 < c.tables <= 0x1000_0000
    modifies c
    ensures r == -1 || r == 0 || r == 1
    ensures c.Finished(rs) && i <= |rs| && at == PosOf(c.tables, rs, i) ==>
              if i == |rs| then r == 0 else r == 1 && next == PosOf(c.tables, rs, i + 1) && AtRecord(c, rs, i)
  {
    r, next := DoIt(c, at, rs, i);
  }

  /** The index that `cdb_successor` moves to: the first record, or the one behind the first with this key. */
  ghost function SuccessorOf(rs: seq<Record>, key: Option<Bytes>): (i: nat)
    ensures i <= |rs|
  {
    match key
    case None => 0
    case Some(k) => if Matches(rs, k) == [] then |rs| else Matches(rs, k)[0] + 1
  }

  /** `cdb_successor`. */
  method Successor(c: Reader, key: Option<Bytes>, ghost rs: seq<Record>) returns (r: int)
    requires 0 < c.tables <= 0x1000_0000
    modifies c
    ensures r == -1 || r == 0 || r == 1
    ensures c.Finished(rs) ==>
              var i := SuccessorOf(rs, key);
              if i < |rs| then r == 1 && AtRecord(c, rs, i) else r == 0
  {
    hide Image, PosOf, Hash, Matches, Fits, Reader.Searching, Reader.FoundSomewhere;
    ghost var i := SuccessorOf(rs, key);
    var at, next: uint32;
    if key.Some? {
      r := c.Find(key.value, rs);
      if r < 1 { return; }
      if c.Finished(rs) {
        ImageRecord(c.tables, rs, i - 1);
      }
      at := Wrap(c.dpos + c.dlen);
    } else {
      FirstPos(c.tables, rs);
      at := 8 * c.tables;
    }
    r, next := DoIt(c, at, rs, i);
  }

  lemma FirstPos(tables: nat, rs: seq<Record>)
    ensures PosOf(tables, rs, 0) == 8 * tables
  {
  }

  /** Stepping from record i by its key leads to record i+1 exactly when i is the first with its key. */
  lemma {:induction false} SuccessorSteps(rs: seq<Record>, i: nat)
    requires i < |rs|
    ensures SuccessorOf(rs, Some(rs[i].key)) == i + 1 <==> forall j :: 0 <= j < i ==> rs[j].key != rs[i].key
  {
    var m := Matches(rs, rs[i].key);
    MatchesComplete(rs, rs[i].key, i);
    forall j | 0 <= j < |rs| && rs[j].key == rs[i].key
      ensures m[0] <= j
    {
      MatchesComplete(rs, rs[i].key, j);
      var k :| 0 <= k < |m| && m[k] == j;
      if k > 0 {
        MatchesRise(rs, rs[i].key, 0, k);
      }
    }
  }

  /** `cdb_firstkey` and `cdb_nextkey` until 0: every record once, in insertion order. */
  method WalkAll(tables: nat, file: Bytes, ghost rs: seq<Record>) returns (seen: seq<Record>)
    requires 0 < tables <= 0x1000_0000 && Fits(tables, rs) && file == Image(tables, rs)
    ensures seen == rs
  {
    hide Image, Fits, PosOf, AtRecord, Reader.Found;
    var c := new Reader(tables, file);
    seen := [];
    var r, at := FirstKey(c, rs);
    while r == 1
      invariant r == 0 || r == 1
      invariant c.tables == tables && c.file == file && fresh(c)
      invariant |seen| <= |rs| && seen == rs[..|seen|]
      invariant r == 1 ==> |seen| < |rs| && at == PosOf(tables, rs, |seen| + 1) && AtRecord(c, rs, |seen|)
      invariant r == 0 ==> |seen| == |rs|
      decreases |rs| - |seen|, r
    {
      AtRecordReads(c, rs, |seen|);
      seen := seen + [Record(file[c.kpos..c.dpos], file[c.dpos..c.dpos + c.dlen])];
      r, at := NextKey(c, at, rs, |seen|);
    }
  }

  ghost predicate DistinctKeys(rs: seq<Record>) {
    forall i, j :: 0 <= i < j < |rs| ==> rs[i].key != rs[j].key
  }

  lemma FirstSuccessor(rs: seq<Record>)
    ensures SuccessorOf(rs, None) == 0
  {
  }

  /** `cdb_successor` from the null key on: every record once, if no key was added twice. */
  method WalkBySuccessor(tables: nat, file: Bytes, ghost rs: seq<Record>) returns (seen: seq<Record>)
    requires 0 < tables <= 0x1000_0000 && Fits(tables, rs) && file == Image(tables, rs)
    requires DistinctKeys(rs)
    ensures seen == rs
  {
    hide Image, Fits, PosOf, Matches, AtRecord, SuccessorOf, Reader.Found;
    var c := new Reader(tables, file);
    seen := [];
    assert SuccessorOf(rs, None) == 0 by { FirstSuccessor(rs); }
    var r := Successor(c, None, rs);
    while r == 1
      invariant r == 0 || r == 1
      invariant c.tables == tables && c.file == file && fresh(c)
      invariant |seen| <= |rs| && seen == rs[..|seen|]
      invariant r == 1 ==> |seen| < |rs| && AtRecord(c, rs, |seen|)
      invariant r == 0 ==> |seen| == |rs|
      decreases |rs| - |seen|, r
    {
      AtRecordReads(c, rs, |seen|);
      SuccessorSteps(rs, |seen|);
      var key: Bytes := file[c.kpos..c.dpos];
      seen := seen + [Record(key, file[c.dpos..c.dpos + c.dlen])];
      r := Successor(c, Some(key), rs);
    }
  }
}
