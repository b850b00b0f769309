/** The reader (cdb/cdb.c): resumable lookup in a mapped file. */
module CdbReader {
  import opened Words
  import opened Sequences
  import opened Device
  import opened CdbHash
  import opened CdbProbe
  import opened CdbFormat
  import opened CdbLookup

  /** The file has a record with this key at p. */
  predicate KeyAt(f: seq<byte>, p: nat, key: Bytes) {
    && p + 8 + |key| <= |f|
    && f[p..p + 4] == Pack(|key|)
    && f[p + 8..p + 8 + |key|] == key
  }

  /** `byte_diff`: zero exactly when the two strings of equal length agree, else the difference where they first do
      not. */
  method ByteDiff(s: seq<byte>, t: seq<byte>) returns (d: int)
    requires |s| == |t|
    ensures d == 0 <==> s == t
    ensures d != 0 ==> exists i :: 0 <= i < |s| && s[..i] == t[..i] && d == s[i] as int - t[i] as int
  {
    var i := 0;
    while i < |s|
      invariant 0 <= i <= |s|
      invariant s[..i] == t[..i]
    {
      if s[i] != t[i] { return s[i] as int - t[i] as int; }
      i := i + 1;
    }
    return 0;
  }

  /** all is what a file with this content has from pos on. */
  ghost predicate FromPos(content: seq<byte>, pos: nat, all: seq<byte>) {
    if pos <= |content| then all == content[pos..] else all == []
  }

  lemma AllTaken(content: seq<byte>, pos: nat, all: seq<byte>, buf: seq<byte>, rest: seq<byte>)
    requires FromPos(content, pos, all) && all == buf + rest && buf != []
    ensures pos + |buf| <= |content| && buf == content[pos..pos + |buf|]
  {
  }

  lemma TooShort(content: seq<byte>, pos: nat, all: seq<byte>, buf: seq<byte>, len: nat)
    requires FromPos(content, pos, all) && all == buf && |buf| < len
    ensures pos + len > |content|
  {
  }

  lemma TakeMore(all: seq<byte>, buf: seq<byte>, more: seq<byte>, rest: seq<byte>)
    requires all == buf + (more + rest)
    ensures all == buf + more + rest
  {
  }

  /** `cdb_read` without a map: short and interrupted reads from the file give what the map would. */
  method ReadUnmapped(fd: File, len: uint32, pos: uint32) returns (ok: bool, buf: seq<byte>)
    modifies fd`offset, fd`script
    ensures ok && len > 0 ==> pos + len <= |fd.content| && buf == fd.content[pos..pos + len]
    ensures len == 0 ==> ok && buf == []
    ensures old(fd.NeverFails()) && len > 0 ==> (ok <==> pos + len <= |fd.content|)
  {
    fd.SeekSet(pos);
    buf := [];
    ghost var all := fd.Rest();
    assert FromPos(fd.content, pos, all);
    hide File.Rest, FromPos;
    while |buf| < len
      invariant |buf| <= len && all == buf + fd.Rest()
      invariant old(fd.NeverFails()) ==> fd.NeverFails()
      decreases len - |buf|
    {
      var r, more := fd.OneRead(len - |buf|);
      if r <= 0 {
        if r == 0 { TooShort(fd.content, pos, all, buf, len); }
        return false, buf;
      }
      TakeMore(all, buf, more, fd.Rest());
      buf := buf + more;
    }
    if len > 0 { AllTaken(fd.content, pos, all, buf, fd.Rest()); }
    return true, buf;
  }

  /** Advancing by 8 and wrapping at the table's end moves one slot along the probe path. */
  lemma NextSlot(hpos: uint32, len: nat, w: nat, d: nat)
    requires w < len && d < len && hpos + 8 * len < TWO32
    ensures var k := Wrap(hpos + 8 * Slot(w, d, len) + 8);
            hpos + 8 * Slot(w, d + 1, len) == if k == Wrap(hpos + Wrap(len * 8)) then hpos else k
  {
  }

  class Reader {
    const tables: nat
    const file: Bytes
    var loop: uint32    // number of slots searched under this key
    var khash: uint32   // the next four are set once loop is nonzero
    var kpos: uint32
    var hpos: uint32
    var hslots: uint32
    var dpos: uint32    // the last two are set by a successful search
    var dlen: uint32

    /** `cdb_init` on a file that could be mapped. */
    constructor (tables: nat, mapped: Bytes)
      requires 0 < tables <= 0x1000_0000
      ensures this.tables == tables && file == mapped && loop == 0
    {
      this.tables, file := tables, mapped;
      loop := 0;
    }

    /** The mapped file is the finished image of these records. */
    ghost predicate Finished(rs: seq<Record>)
    {
      0 < tables <= 0x1000_0000 && Fits(tables, rs) && file == Image(tables, rs)
    }

    /** The fields are those of a search for key that has returned its first k records. */
    ghost predicate Searching(rs: seq<Record>, key: seq<byte>, k: nat)
      requires Fits(tables, rs)
      reads this
    {
      && Passed(tables, rs, key, k, loop)
      && (loop > 0 ==> Probing(rs, Hash(key)))
    }

    /** kpos is the next slot on the probe path of hash h. */
    ghost predicate Probing(rs: seq<Record>, h: uint32)
      requires Fits(tables, rs)
      reads this
    {
      var len := |HashSlots(tables, rs, h)|;
      && 0 < len == hslots
      && khash == h
      && hpos == TablePos(tables, rs, TableOf(h, tables))
      && loop <= len
      && kpos == hpos + 8 * Slot(Home(h, tables, len), loop, len)
    }

    /** The last search stopped at record i. */
    ghost predicate Found(rs: seq<Record>, i: nat)
      requires i < |rs|
      reads this
    {
      && dpos == PosOf(tables, rs, i) + 8 + |rs[i].key|
      && dlen == |rs[i].data|
      && dpos + dlen <= |file|
      && file[dpos..dpos + dlen] == rs[i].data
    }

    /** A record with this key and a data length of dlen ends its key at dpos. */
    predicate FoundSomewhere(key: Bytes)
      reads this
    {
      && 8 + |key| <= dpos
      && var p := dpos - 8 - |key|;
         KeyAt(file, p, key) && file[p + 4..p + 8] == Pack(dlen)
    }

    /** `cdb_read`, mapped form. */
    method Read(len: uint32, pos: uint32) returns (ok: bool, buf: seq<byte>)
      ensures ok <==> pos + len <= |file|
      ensures ok ==> buf == file[pos..pos + len]
    {
      if pos > |file| || |file| - pos < len {
        return false, [];
      }
      return true, file[pos..pos + len];
    }

    /** `match`: compares the stored key in pieces of at most 32 bytes. */
    method Match(key: Bytes, start: uint32) returns (r: int)
      requires start <= |file|
      ensures r == -1 || r == 0 || r == 1
      ensures r == 1 ==> start + |key| <= |file| && file[start..start + |key|] == key
      ensures start + |key| <= |file| ==> (r == 1 <==> file[start..start + |key|] == key) && r != -1
    {
      var len, pos, done := |key|, start, 0;
      while len > 0
        invariant 0 <= len && done + len == |key|
        invariant pos == start + done <= |file|
        invariant file[start..start + done] == key[..done]
      {
        var n := 32;
        if n > len { n := len; }
        var ok, buf := Read(n, pos);
        if !ok { return -1; }
        var d := ByteDiff(buf, key[done..done + n]);
        if d != 0 {
          if start + |key| <= |file| {
            SliceSlice(file, start, start + |key|, done, done + n);
          }
          return 0;
        }
        assert file[start..start + done + n] == file[start..start + done] + buf;
        assert key[..done + n] == key[..done] + key[done..done + n];
        pos := Wrap(pos + n);
        done := done + n;
        len := len - n;
      }
      assert key[..done] == key;
      return 1;
    }

    /** `cdb_findstart`. */
    method FindStart(ghost rs: seq<Record>, ghost key: seq<byte>)
      modifies this`loop
      ensures loop == 0
      ensures Fits(tables, rs) ==> Searching(rs, key, 0)
    {
      loop := 0;
    }

    method TableNumber(u: uint32) returns (t: nat)
      requires tables > 0
      ensures t == TableOf(u, tables)
    {
      t := u % tables;
    }

    method HomeSlot(u: uint32, len: uint32) returns (w: nat)
      requires tables > 0 && len > 0
      ensures w == Home(u, tables, len)
    {
      w := u / tables;
      w := w % len;
    }

    /** The first step of `cdb_findnext`: choose the table and the first slot. */
    method FirstProbe(key: Bytes, ghost rs: seq<Record>) returns (r: int)
      requires 0 < tables <= 0x1000_0000
      modifies this
      ensures loop == old(loop) && dpos == old(dpos) && dlen == old(dlen)
      ensures r == -1 || r == 0 || r == 1
      ensures r == 1 ==> khash == Hash(key)
      ensures Finished(rs) ==>
                if HashBucket(tables, rs, Hash(key)) == [] then r == 0
                else r == 1 && (loop == 0 ==> Probing(rs, Hash(key)))
    {
      hide TableOf, TablePos, HashSlots, HashBucket, Hash, Image, Unpack, Home, Fits, Pack, Wrap;
      var u := ComputeHash(key);
      var t := TableNumber(u);
      WrapSmall(t * 8);
      var ok, buf := Read(8, Wrap(t * 8));
      if Finished(rs) {
        PointerReads(tables, rs, u);
      }
      if !ok { return -1; }
      SliceSlice(file, 8 * t, 8 * t + 8, 0, 4);
      SliceSlice(file, 8 * t, 8 * t + 8, 4, 8);
      hslots := Unpack(buf[4..8]);
      if hslots == 0 { return 0; }
      hpos := Unpack(buf[..4]);
      khash := u;
      var w := HomeSlot(u, hslots);
      if Finished(rs) {
        FitsSize(tables, rs);
        WrapSmall(w * 8);
        WrapSmall(hpos + w * 8);
      }
      kpos := Wrap(hpos + Wrap(w * 8));
      return 1;
    }

    /** The next slot on the probe path, with wrap-around at the end of the table. */
    method Advance(ghost rs: seq<Record>)
      requires 0 < tables <= 0x1000_0000 && loop < hslots
      modifies this`loop, this`kpos
      ensures loop == old(loop) + 1
      ensures Finished(rs) && old(Probing(rs, khash)) ==> Probing(rs, khash)
    {
      hide Wrap, Home, Slot, HashSlots, TablePos, TableOf, Image, Unpack, HashBucket;
      if Finished(rs) && Probing(rs, khash) {
        PointerReads(tables, rs, khash);
        NextSlot(hpos, hslots, Home(khash, tables, hslots), loop);
      }
      loop := loop + 1;
      kpos := Wrap(kpos + 8);
      if kpos == Wrap(hpos + Wrap(hslots * 8)) {
        kpos := hpos;
      }
    }

    /** What one probe of a finished file reads. */
    lemma {:induction false} ProbeReads(rs: seq<Record>, h: uint32)
      requires Finished(rs) && Probing(rs, h) && loop < hslots
      ensures SlotIn(file, kpos, Probed(tables, rs, h, loop))
    {
      hide TableOf, Home, Bucket, Fill, Entries, SlotIn, TablePos;
      var len := |HashSlots(tables, rs, h)|;
      ImageSlot(tables, rs, TableOf(h, tables), Slot(Home(h, tables, len), loop, len));
    }

    /** What the bytes of record i say. */
    lemma {:induction false} RecordReads(rs: seq<Record>, i: nat)
      requires Finished(rs) && i < |rs|
      ensures var p, r := PosOf(tables, rs, i), rs[i];
              && p + 8 + |r.key| + |r.data| <= |file|
              && Unpack(file[p..p + 4]) == |r.key|
              && Unpack(file[p + 4..p + 8]) == |r.data|
              && file[p + 8..p + 8 + |r.key|] == r.key
              && file[p + 8 + |r.key|..p + 8 + |r.key| + |r.data|] == r.data
    {
      hide Image, PosOf, Fits, Pack, Unpack;
      ImageRecord(tables, rs, i);
      UnpackPack(|rs[i].key|);
      UnpackPack(|rs[i].data|);
    }

    /** The part of `cdb_findnext` that looks at one record whose hash agrees. */
    method Check(key: Bytes, pos: uint32) returns (r: int)
      modifies this`dpos, this`dlen
      ensures r == -1 || r == 0 || r == 1
      ensures r == 1 <==> KeyAt(file, pos, key)
      ensures r == 1 ==> dpos == pos + 8 + |key| && file[pos + 4..pos + 8] == Pack(dlen)
      ensures r == -1 ==> pos + 8 > |file| || pos + 8 + Unpack(file[pos..pos + 4]) > |file|
    {
      hide Pack, Unpack;
      var ok, buf := Read(8, pos);
      if !ok { return -1; }
      SliceSlice(file, pos, pos + 8, 0, 4);
      SliceSlice(file, pos, pos + 8, 4, 8);
      PackUnpack(buf[..4]);
      PackUnpack(buf[4..8]);
      UnpackPack(|key|);
      if Unpack(buf[..4]) != |key| { return 0; }
      r := Match(key, Wrap(pos + 8));
      if r == 1 {
        dlen := Unpack(buf[4..8]);
        dpos := Wrap(pos + 8 + |key|);
      }
    }

    /** On a finished file, looking at record i recognizes its key and finds its data. */
    lemma {:induction false} CheckMeaning(key: Bytes, rs: seq<Record>, i: nat)
      requires Finished(rs) && i < |rs|
      ensures var p := PosOf(tables, rs, i);
              && p + 8 <= |file| && p + 8 + Unpack(file[p..p + 4]) <= |file|
              && (KeyAt(file, p, key) <==> rs[i].key == key)
              && (rs[i].key == key && dpos == p + 8 + |key| && file[p + 4..p + 8] == Pack(dlen) ==> Found(rs, i))
    {
      hide Image, PosOf, Fits, Pack, Unpack;
      RecordReads(rs, i);
      PackUnpack(file[PosOf(tables, rs, i)..PosOf(tables, rs, i) + 4]);
      UnpackPack(|key|);
      UnpackPack(dlen);
    }

    /** A search for key has probed loop slots and passed exactly k of its records. */
    ghost predicate Under(rs: seq<Record>, key: seq<byte>, k: nat)
      requires Fits(tables, rs)
      reads this
    {
      Probing(rs, Hash(key)) && Passed(tables, rs, key, k, loop)
    }

    /** One turn of the loop of `cdb_findnext`: -1, 0 and 1 end the call, 2 goes on. */
    method ProbeOnce(key: Bytes, ghost rs: seq<Record>, ghost k: nat) returns (r: int)
      requires 0 < tables <= 0x1000_0000 && loop < hslots
      modifies this`loop, this`kpos, this`dpos, this`dlen
      ensures -1 <= r <= 2
      ensures r == 1 ==> FoundSomewhere(key)
      ensures r == 1 || r == 2 ==> loop == old(loop) + 1
      ensures Finished(rs) && old(Under(rs, key, k)) ==>
                match r
                case 0 => k == |Matches(rs, key)| && Under(rs, key, k)
                case 1 =>
                  && k < |Matches(rs, key)| && Found(rs, Matches(rs, key)[k]) && Under(rs, key, k + 1)
                  && loop == Depth(tables, rs, Matches(rs, key)[k]) + 1
                case 2 => Under(rs, key, k)
                case _ => false
    {
      hide Hash, Found, Passed, SlotIn, KeyAt, HashSlots, HashBucket, Home, TableOf, TablePos, PosOf, MetAt, Pack;
      hide Unpack, Image, Fits, Probed;
      ghost var fin := Finished(rs) && Under(rs, key, k);
      var ok, buf := Read(8, kpos);
      ghost var d, i := loop, 0;
      if fin {
        assert |HashSlots(tables, rs, khash)| == 2 * |HashBucket(tables, rs, khash)|;
        i := ProbeMeaning(key, rs, k, buf);
      }
      if !ok { return -1; }
      var pos := Unpack(buf[4..8]);
      if pos == 0 { return 0; }
      Advance(rs);
      if Unpack(buf[..4]) == khash {
        r := Check(key, pos);
        if fin { CheckMeaning(key, rs, i); }
        if r != 0 { return; }
      }
      return 2;
    }

    /** What the eight bytes of one probe mean for the search. */
    lemma {:induction false} ProbeMeaning(key: Bytes, rs: seq<Record>, k: nat, buf: seq<byte>) returns (i: nat)
      requires Finished(rs) && Under(rs, key, k) && loop < hslots
      ensures kpos + 8 <= |file|
      ensures buf == file[kpos..kpos + 8] ==>
                SlotMeaning(tables, rs, key, k, loop, Hp(Unpack(buf[..4]), Unpack(buf[4..8])), i)
    {
      hide Passed, HashBucket, Home, TableOf, TablePos, PosOf, Pack, Unpack, Image, Fits, Probed, SlotMeaning, Hash;
      ProbeReads(rs, khash);
      i := NextSlotMeaning(tables, rs, key, k, loop);
      if buf == file[kpos..kpos + 8] {
        PairReads(file, kpos, Probed(tables, rs, khash, loop), buf);
      }
    }

    /** `cdb_findnext`. Whatever the file, a hit is a record with this key; on a finished
        file the calls return the records of the key one by one, and then nothing. */
    method FindNext(key: Bytes, ghost rs: seq<Record>, ghost k: nat) returns (r: int)
      requires 0 < tables <= 0x1000_0000
      modifies this
      ensures -1 <= r <= 1
      ensures r == 1 ==> FoundSomewhere(key)
      ensures r == 1 ==> old(loop) < loop <= hslots && (old(loop) > 0 ==> hslots == old(hslots))
      ensures Finished(rs) && old(Searching(rs, key, k)) ==>
                if k < |Matches(rs, key)|
                then
                  && r == 1 && Found(rs, Matches(rs, key)[k]) && Searching(rs, key, k + 1)
                  && loop == Depth(tables, rs, Matches(rs, key)[k]) + 1
                else r == 0 && Searching(rs, key, k)
    {
      hide Hash, Found, FoundSomewhere, Image, Passed, Probing, HashBucket, Fits;
      ghost var fin := Finished(rs) && Searching(rs, key, k);
      if loop == 0 {
        r := FirstProbe(key, rs);
        if fin {
          EmptyBucketNoMatch(tables, rs, key);
        }
        if r < 1 { return; }
      }
      while loop < hslots
        invariant old(loop) <= loop && (old(loop) > 0 ==> hslots == old(hslots))
        invariant fin ==> Under(rs, key, k)
        decreases hslots - loop
      {
        r := ProbeOnce(key, rs, k);
        if r < 2 { return; }
      }
      if fin { UnderAtEnd(rs, key, k); }
      return 0;
    }

    lemma {:induction false} UnderAtEnd(rs: seq<Record>, key: Bytes, k: nat)
      requires Fits(tables, rs) && Under(rs, key, k) && loop >= hslots
      ensures k == |Matches(rs, key)| && Searching(rs, key, k)
    {
      PassedAtEnd(tables, rs, key, k, loop);
    }

    /** `cdb_find`: the first record of the key. */
    method Find(key: Bytes, ghost rs: seq<Record>) returns (r: int)
      requires 0 < tables <= 0x1000_0000
      modifies this
      ensures r == -1 || r == 0 || r == 1
      ensures r == 1 ==> FoundSomewhere(key)
      ensures Finished(rs) ==>
                if Matches(rs, key) != []
                then r == 1 && Found(rs, Matches(rs, key)[0]) && Searching(rs, key, 1)
                else r == 0
    {
      hide Passed, Found, FoundSomewhere;
      FindStart(rs, key);
      r := FindNext(key, rs, 0);
    }
  }

  lemma FitsSize(tables: nat, rs: seq<Record>)
    requires Fits(tables, rs)
    ensures |Image(tables, rs)| < TWO32
  {
  }

  /** The two words of a slot, from the eight bytes read at its position. */
  lemma {:induction false} PairReads(f: seq<byte>, p: nat, e: Hp, buf: seq<byte>)
    requires SlotIn(f, p, e)
    requires |buf| == 8 && buf == f[p..p + 8]
    ensures Unpack(buf[..4]) == e.h && Unpack(buf[4..8]) == e.p
  {
    hide Pack, Unpack;
    SliceSlice(f, p, p + 8, 0, 4);
    SliceSlice(f, p, p + 8, 4, 8);
    UnpackPack(e.h);
    UnpackPack(e.p);
  }

  lemma {:induction false} EmptyBucketNoMatch(tables: nat, rs: seq<Record>, key: seq<byte>)
    requires Fits(tables, rs)
    ensures HashBucket(tables, rs, Hash(key)) == [] ==> Matches(rs, key) == []
  {
    hide HashBucket, Hash;
    var m := Matches(rs, key);
    if m != [] {
      RecordInBucket(tables, rs, m[0]);
    }
  }
}
