/** The whole constant database: what is added is what is found. */
module Cdb {
  import opened Words
  import opened CdbHash
  import opened CdbFormat
  import opened CdbLookup
  import opened CdbReader
  import opened CdbMaker
  import opened Device
  import opened Buffers
  import opened CdbText
  import opened CdbTools

  /** A plain list of pairs answers a lookup with the data of all pairs under the key, in order. */
  function Lookup(rs: seq<Record>, key: seq<byte>): seq<seq<byte>> {
    if rs == [] then [] else
    var n := |rs| - 1;
    Lookup(rs[..n], key) + if rs[n].key == key then [rs[n].data] else []
  }

  lemma {:induction false} LookupIsMatches(rs: seq<Record>, key: seq<byte>)
    ensures |Lookup(rs, key)| == |Matches(rs, key)|
    ensures forall j :: 0 <= j < |Matches(rs, key)| ==> Lookup(rs, key)[j] == rs[Matches(rs, key)[j]].data
  {
    if rs != [] {
      var n := |rs| - 1;
      LookupIsMatches(rs[..n], key);
      var m, m' := Matches(rs, key), Matches(rs[..n], key);
      forall j | 0 <= j < |m|
        ensures Lookup(rs, key)[j] == rs[m[j]].data
      {
        if j < |m'| {
          assert m[j] == m'[j] && rs[..n][m'[j]] == rs[m'[j]];
        }
      }
    }
  }

  /** `cdb_make_start`, one `cdb_make_add` per record, `cdb_make_finish`, on a truncated file. */
  method Build(rs: seq<Record>, bits: nat, script: seq<Outcome>) returns (ok: bool, file: seq<byte>)
    requires 8 * Pow2(bits) < TWO32
    ensures ok ==> Fits(Pow2(bits), rs) && file == Image(Pow2(bits), rs)
    ensures Fails !in script ==> (ok <==> Fits(Pow2(bits), rs))
  {
    hide Pow2, Eod, DataArea, Written, Image, Entries, Contents;
    ghost var tables := Pow2(bits);
    var fd := new File([], script);
    var m := new Maker(fd, bits);
    assert DataArea([]) == [] by { EmptyArea(); }
    file := [];
    for i := 0 to |rs|
      invariant m.Valid() && m.records == rs[..i] && m.Streamed(DataArea(m.records))
      invariant m.bits == bits && m.base == [] && m.b.fd == fd
      invariant fresh(fd) && fresh(m) && fresh(m.b) && fresh(m.b.x)
      invariant fresh(m.final) && fresh(m.count) && fresh(m.start)
      invariant Fails !in script ==> fd.NeverFails()
    {
      assert rs[..i + 1] == rs[..i] + [rs[i]];
      EodPrefix(tables, rs, i + 1);
      ok := m.Add(rs[i].key, rs[i].data);
      if !ok { return; }
    }
    assert rs[..|rs|] == rs;
    ok := m.Finish();
    if ok {
      WrittenOver([], Image(tables, rs));
      file := fd.content;
    }
  }

  lemma EmptyArea()
    ensures DataArea([]) == []
  {
  }

  /** `cdb_findstart`, then `cdb_findnext` until it fails. */
  method FindAll(tables: nat, file: Bytes, key: Bytes, ghost rs: seq<Record>) returns (found: seq<seq<byte>>)
    requires 0 < tables <= 0x1000_0000 && Fits(tables, rs) && file == Image(tables, rs)
    ensures found == Lookup(rs, key)
  {
    hide Image, Hash, Reader.Searching, Fits;
    LookupIsMatches(rs, key);
    var c := new Reader(tables, file);
    c.FindStart(rs, key);
    found := [];
    var r := 1;
    while r == 1
      invariant r == 1 || r == 0
      invariant c.tables == tables && c.file == file && fresh(c)
      invariant |found| <= |Matches(rs, key)| && c.Searching(rs, key, |found|)
      invariant found == Lookup(rs, key)[..|found|]
      invariant r == 0 ==> |found| == |Matches(rs, key)|
      decreases |Matches(rs, key)| - |found|, r
    {
      r := c.FindNext(key, rs, |found|);
      if r == 1 {
        found := found + [file[c.dpos..c.dpos + c.dlen]];
      }
    }
  }

  /** The two instances: cdb/orig/ has 256 tables, cdb/ has 512. */
  lemma Instances()
    ensures Pow2(8) == 256 && Pow2(9) == 512
  {
    assert Pow2(4) == 16;
  }

  lemma {:induction false} Pow2Rises(a: nat, b: nat)
    requires a <= b
    ensures Pow2(a) <= Pow2(b)
  {
    if a < b {
      Pow2Rises(a, b - 1);
    }
  }

  /** A number of tables whose header fits 32-bit positions. */
  lemma {:induction false} TablesBound(bits: nat)
    requires 8 * Pow2(bits) < TWO32
    ensures Pow2(bits) <= 0x1000_0000 && (bits >= 3 ==> Pow2(bits) >= 8)
  {
    assert Pow2(3) == 8;
    assert Pow2(29) == 0x2000_0000 by {
      assert Pow2(8) == 256;
      assert Pow2(16) == 0x1_0000;
      assert Pow2(24) == 0x100_0000;
    }
    if bits >= 29 {
      Pow2Rises(29, bits);
    } else {
      Pow2Rises(bits, 28);
      assert Pow2(29) == 2 * Pow2(28);
    }
    if bits >= 3 {
      Pow2Rises(3, bits);
    }
  }

  /** What was added is what is found, for every list of records, every key and every power of two as number of
      tables. */
  method BuildThenFind(rs: seq<Record>, key: Bytes, bits: nat, script: seq<Outcome>)
    returns (ok: bool, found: seq<seq<byte>>)
    requires 8 * Pow2(bits) < TWO32
    ensures ok ==> found == Lookup(rs, key)
    ensures Fails !in script ==> (ok <==> Fits(Pow2(bits), rs))
  {
    hide Image, Fits, Lookup;
    found := [];
    var file;
    TablesBound(bits);
    ok, file := Build(rs, bits, script);
    if ok {
      FitsSize(Pow2(bits), rs);
      found := FindAll(Pow2(bits), file, key, rs);
    }
  }

  /** `cdbdump` of a finished file prints its records in order. */
  method DumpFile(file: Bytes, tables: nat, s0: seq<Outcome>, s1: seq<Outcome>, ghost rs: seq<Record>)
    returns (ok: bool, text: seq<byte>)
    requires 0 < tables <= 0x1000_0000 && Fits(tables, rs) && file == Image(tables, rs)
    ensures ok ==> text == Text(rs)
    ensures Fails !in s0 && Fails !in s1 ==> ok
  {
    hide Image, Fits, Written, Text;
    var fd0 := new File(file, s0);
    var fd1 := new File([], s1);
    var bin := new InBuffer(fd0, 8192);
    var bout := new OutBuffer(fd1, 8192);
    assert bin.Remaining() == file;
    assert bout.Flushed() == [] by { WrittenNone([], 0); }
    ghost var printed;
    ok, printed := Dump(bin, bout, tables, rs);
    text := fd1.content;
    WrittenOver([], Text(rs));
  }

  /** `cdbmake` accepts a text exactly if it parses and its records fit, and writes their image. */
  method MakeFile(text: seq<byte>, bits: nat, s0: seq<Outcome>, s1: seq<Outcome>) returns (ok: bool, file: seq<byte>)
    requires 8 * Pow2(bits) < TWO32
    ensures ok ==> Parse(text).Good? && Fits(Pow2(bits), Parse(text).value)
    ensures ok ==> file == Image(Pow2(bits), Parse(text).value)
    ensures Fails !in s0 && Fails !in s1 ==> (ok <==> Parse(text).Good? && Fits(Pow2(bits), Parse(text).value))
  {
    hide Image, Fits, Written, Parse, Pow2;
    var fd0 := new File(text, s0);
    var fd1 := new File([], s1);
    var bin := new InBuffer(fd0, 8192);
    var m := new Maker(fd1, bits);
    assert bin.Remaining() == text;
    ok := Make(bin, m);
    file := fd1.content;
    if ok { WrittenOver([], Image(Pow2(bits), Parse(text).value)); }
  }

  /** `cdbdump` of a finished file, fed to `cdbmake`, rebuilds the file byte for byte,
      whatever short reads and writes happen on the way. */
  method DumpThenMake(file: Bytes, bits: nat, s0: seq<Outcome>, s1: seq<Outcome>, s2: seq<Outcome>, s3: seq<Outcome>,
      ghost rs: seq<Record>) returns (ok: bool, again: seq<byte>)
    requires bits >= 3 && 8 * Pow2(bits) < TWO32
    requires Fits(Pow2(bits), rs) && file == Image(Pow2(bits), rs)
    ensures ok ==> again == file
    ensures Fails !in s0 && Fails !in s1 && Fails !in s2 && Fails !in s3 ==> ok
  {
    hide Image, Fits, Text, Parse;
    TablesBound(bits);
    again := [];
    var text;
    ok, text := DumpFile(file, Pow2(bits), s0, s1, rs);
    if !ok { return; }
    TextRoundTrip(Pow2(bits), rs, []);
    assert Text(rs) + [] == Text(rs);
    ok, again := MakeFile(text, bits, s2, s3);
  }
}
