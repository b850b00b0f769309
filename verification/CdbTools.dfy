/** `cdbdump` and `cdbmake`: the printer and the parser of the text form. */
module CdbTools {
  import opened Words
  import opened Sequences
  import opened CdbHash
  import opened CdbFormat
  import opened CdbText
  import opened CdbMaker
  import opened Device
  import opened Buffers
  import opened CdbTraverse

  const FMT_ULONG := 40

  /** `fmt_ulong`: counts the digits, then writes them backwards if there is where to. */
  method FmtUlong(s: array?<byte>, value: nat) returns (len: nat)
    requires s != null ==> s.Length >= |Decimal(value)|
    modifies s
    ensures len == |Decimal(value)| && (s != null ==> s[..len] == Decimal(value))
  {
    len := 1;
    var q := value;
    while q > 9
      invariant len + |Decimal(q)| == 1 + |Decimal(value)|
    {
      len := len + 1;
      q := q / 10;
    }
    if s == null { return; }
    var u, at := value, len;
    while true
      invariant 0 < at == |Decimal(u)| <= len
      invariant Decimal(u) + s[at..len] == Decimal(value)
      decreases u
    {
      at := at - 1;
      ghost var more := s[at + 1..len];
      s[at] := ZERO + u % 10;
      assert s[at..len] == [ZERO + u % 10] + more;
      if u < 10 {
        assert Decimal(u) + more == s[..len];
        return;
      }
      assert Decimal(u) + more == Decimal(u / 10) + s[at..len];
      u := u / 10;
    }
  }

  /** 32-bit lengths have at most ten digits. */
  lemma DecimalShort(n: uint32)
    ensures |Decimal(n)| <= 10
  {
    DecimalDigits(n, 10);
  }

  lemma {:induction false} DecimalDigits(n: nat, k: nat)
    requires k > 0 && n < Pow10(k)
    ensures |Decimal(n)| <= k
  {
    if n >= 10 {
      DecimalDigits(n / 10, k - 1);
    }
  }

  // cdbdump

  /** Input and output do not share memory. */
  ghost predicate Apart(bin: InBuffer, bout: OutBuffer) {
    bin.x != bout.x && bin.fd != bout.fd
  }

  /** `get`: exactly len bytes, or failure at the end of the input. */
  method GetBytes(bin: InBuffer, len: nat) returns (ok: bool, buf: seq<byte>)
    requires bin.Valid()
    modifies bin`p, bin`n, bin.x, bin.fd`offset, bin.fd`script
    ensures bin.Valid()
    ensures ok ==> |buf| == len && old(bin.Remaining()) == buf + bin.Remaining()
    ensures old(bin.fd.NeverFails()) ==> bin.fd.NeverFails() && (ok <==> len <= |old(bin.Remaining())|)
  {
    hide InBuffer.Remaining;
    buf := [];
    while |buf| < len
      invariant bin.Valid() && |buf| <= len
      invariant old(bin.Remaining()) == buf + bin.Remaining()
      invariant old(bin.fd.NeverFails()) ==> bin.fd.NeverFails()
    {
      var r, piece := bin.Get(len - |buf|);
      if r <= 0 { return false, buf; }
      buf := buf + piece;
    }
    return true, buf;
  }

  /** `getnum`. */
  method GetNum(bin: InBuffer) returns (ok: bool, num: uint32)
    requires bin.Valid()
    modifies bin`p, bin`n, bin.x, bin.fd`offset, bin.fd`script
    ensures bin.Valid()
    ensures ok ==> old(bin.Remaining()) == Pack(num) + bin.Remaining()
    ensures old(bin.fd.NeverFails()) ==> bin.fd.NeverFails() && (ok <==> 4 <= |old(bin.Remaining())|)
  {
    hide InBuffer.Remaining;
    var buf;
    ok, buf := GetBytes(bin, 4);
    num := 0;
    if ok {
      num := UnpackByShifts(buf);
    }
  }

  /** `put`. */
  method PutBytes(bout: OutBuffer, buf: seq<byte>, ghost base: seq<byte>, ghost at: nat, ghost sent: seq<byte>)
    returns (ok: bool)
    requires bout.Valid() && Sent(bout, base, at, sent)
    modifies bout`p, bout.x, bout.fd
    ensures bout.Valid()
    ensures ok ==> Sent(bout, base, at, sent + buf)
    ensures old(bout.fd.NeverFails()) ==> ok && bout.fd.NeverFails()
  {
    hide Written, OutBuffer.Flushed;
    WrittenTwice(base, at, sent, buf);
    ok := bout.Put(buf);
  }

  /** `copy`: len bytes from input to output in pieces of at most 512. */
  method CopyBytes(bin: InBuffer, bout: OutBuffer, len: nat, ghost base: seq<byte>, ghost at: nat,
      ghost sent: seq<byte>) returns (ok: bool)
    requires bin.Valid() && bout.Valid() && Apart(bin, bout) && Sent(bout, base, at, sent)
    modifies bin`p, bin`n, bin.x, bin.fd`offset, bin.fd`script, bout`p, bout.x, bout.fd
    ensures bin.Valid() && bout.Valid()
    ensures ok ==> len <= |old(bin.Remaining())|
    ensures ok ==> bin.Remaining() == old(bin.Remaining())[len..]
    ensures ok ==> Sent(bout, base, at, sent + old(bin.Remaining())[..len])
    ensures old(bin.fd.NeverFails()) ==> bin.fd.NeverFails()
    ensures old(bout.fd.NeverFails()) ==> bout.fd.NeverFails()
    ensures old(bin.fd.NeverFails()) && old(bout.fd.NeverFails()) ==> (ok <==> len <= |old(bin.Remaining())|)
  {
    hide InBuffer.Remaining, Sent;
    ghost var all := bin.Remaining();
    var done := 0;
    assert sent + all[..0] == sent;
    while done < len
      invariant bin.Valid() && bout.Valid() && done <= len && done <= |all|
      invariant bin.Remaining() == all[done..]
      invariant Sent(bout, base, at, sent + all[..done])
      invariant old(bin.fd.NeverFails()) ==> bin.fd.NeverFails()
      invariant old(bout.fd.NeverFails()) ==> bout.fd.NeverFails()
    {
      var x := 512;
      if len - done < x { x := len - done; }
      var buf;
      ok, buf := GetBytes(bin, x);
      if !ok { return; }
      assert all[done..][..x] == buf && all[..done + x] == all[..done] + buf;
      assert sent + all[..done] + buf == sent + all[..done + x];
      ok := PutBytes(bout, buf, base, at, sent + all[..done]);
      if !ok { return; }
      done := done + x;
    }
    return true;
  }

  /** The input starts with a whole record. */
  predicate WholeRecord(s: seq<byte>) {
    |s| >= 8 && |s| >= 8 + Unpack(s[..4]) + Unpack(s[4..8])
  }

  /** Prints the record that the input starts with. */
  method DumpRecord(bin: InBuffer, bout: OutBuffer, strnum: array<byte>, ghost base: seq<byte>, ghost at: nat,
      ghost sent: seq<byte>) returns (ok: bool, klen: uint32, dlen: uint32, ghost r: Record)
    requires bin.Valid() && bout.Valid() && Apart(bin, bout) && Sent(bout, base, at, sent)
    requires strnum.Length == FMT_ULONG && strnum != bin.x && strnum != bout.x
    modifies bin`p, bin`n, bin.x, bin.fd`offset, bin.fd`script, bout`p, bout.x, bout.fd, strnum
    ensures bin.Valid() && bout.Valid()
    ensures ok ==> old(bin.Remaining()) == RecordBytes(r) + bin.Remaining()
    ensures ok ==> klen == |r.key| && dlen == |r.data| && Sent(bout, base, at, sent + RecordText(r))
    ensures old(bin.fd.NeverFails()) ==> bin.fd.NeverFails()
    ensures old(bout.fd.NeverFails()) ==> bout.fd.NeverFails()
    ensures old(bin.fd.NeverFails()) && old(bout.fd.NeverFails()) ==> (ok <==> WholeRecord(old(bin.Remaining())))
  {
    hide InBuffer.Remaining, Sent, Pack, Unpack, Decimal, RecordText, RecordBytes;
    ghost var all := bin.Remaining();
    klen, dlen, r := 0, 0, Record([], []);
    ok, klen := GetNum(bin);
    if !ok { return; }
    ok, dlen := GetNum(bin);
    if !ok { return; }
    UnpackPack(klen);
    UnpackPack(dlen);
    ghost var more := bin.Remaining();
    assert all == Pack(klen) + Pack(dlen) + more;
    assert all[..4] == Pack(klen) && all[4..8] == Pack(dlen);
    var out := DumpHead(klen, dlen, strnum);
    ok := PutBytes(bout, out, base, at, sent);
    if !ok { return; }
    ok := DumpPair(bin, bout, klen, dlen, base, at, sent + out);
    if !ok { return; }
    r := Record(more[..klen], more[klen..klen + dlen]);
    PrintedRecord(r, all, more, bin.Remaining(), sent, out);
  }

  lemma {:induction false} PrintedRecord(r: Record, all: seq<byte>, more: seq<byte>, rest: seq<byte>, sent: seq<byte>,
      out: seq<byte>)
    requires out == [PLUS] + Decimal(|r.key|) + [COMMA] + Decimal(|r.data|) + [COLON]
    requires |more| >= |r.key| + |r.data| && rest == more[|r.key| + |r.data|..]
    requires r.key == more[..|r.key|] && r.data == more[|r.key|..|r.key| + |r.data|]
    requires all == Pack(|r.key|) + Pack(|r.data|) + more
    ensures all == RecordBytes(r) + rest
    ensures sent + out + (r.key + [MINUS, GREATER] + r.data + [NL]) == sent + RecordText(r)
  {
    hide Pack, Decimal;
    assert more == r.key + r.data + rest;
  }

  /** key -> data and the end of the line. */
  method DumpPair(bin: InBuffer, bout: OutBuffer, klen: nat, dlen: nat, ghost base: seq<byte>, ghost at: nat,
      ghost sent: seq<byte>) returns (ok: bool)
    requires bin.Valid() && bout.Valid() && Apart(bin, bout) && Sent(bout, base, at, sent)
    modifies bin`p, bin`n, bin.x, bin.fd`offset, bin.fd`script, bout`p, bout.x, bout.fd
    ensures bin.Valid() && bout.Valid()
    ensures ok ==> klen + dlen <= |old(bin.Remaining())|
    ensures ok ==> bin.Remaining() == old(bin.Remaining())[klen + dlen..]
    ensures ok ==> var s := old(bin.Remaining());
              Sent(bout, base, at, sent + (s[..klen] + [MINUS, GREATER] + s[klen..klen + dlen] + [NL]))
    ensures old(bin.fd.NeverFails()) ==> bin.fd.NeverFails()
    ensures old(bout.fd.NeverFails()) ==> bout.fd.NeverFails()
    ensures old(bin.fd.NeverFails()) && old(bout.fd.NeverFails()) ==> (ok <==> klen + dlen <= |old(bin.Remaining())|)
  {
    hide InBuffer.Remaining, Sent;
    ghost var s := bin.Remaining();
    ok := CopyBytes(bin, bout, klen, base, at, sent);
    if !ok { return; }
    ghost var a := sent + s[..klen];
    ok := PutBytes(bout, [MINUS, GREATER], base, at, a);
    if !ok { return; }
    ghost var b := a + [MINUS, GREATER];
    ok := CopyBytes(bin, bout, dlen, base, at, b);
    if !ok { return; }
    assert s[klen..][..dlen] == s[klen..klen + dlen] && s[klen..][dlen..] == s[klen + dlen..];
    ghost var c := b + s[klen..klen + dlen];
    ok := PutBytes(bout, [NL], base, at, c);
    assert c + [NL] == sent + (s[..klen] + [MINUS, GREATER] + s[klen..klen + dlen] + [NL]);
  }

  /** The part of a line in front of the key. The source puts it in five pieces. */
  method DumpHead(klen: uint32, dlen: uint32, strnum: array<byte>) returns (out: seq<byte>)
    requires strnum.Length == FMT_ULONG
    modifies strnum
    ensures out == [PLUS] + Decimal(klen) + [COMMA] + Decimal(dlen) + [COLON]
  {
    DecimalShort(klen);
    DecimalShort(dlen);
    var n := FmtUlong(strnum, klen);
    out := [PLUS] + strnum[..n] + [COMMA];
    n := FmtUlong(strnum, dlen);
    out := out + strnum[..n] + [COLON];
  }

  /** The words of the header; the first one says where the records end. */
  method SkipHeader(bin: InBuffer, tables: nat) returns (ok: bool, eod: uint32, ghost head: seq<byte>)
    requires bin.Valid() && 0 < tables <= 0x1000_0000
    modifies bin`p, bin`n, bin.x, bin.fd`offset, bin.fd`script
    ensures bin.Valid()
    ensures ok ==> |head| == 8 * tables && old(bin.Remaining()) == head + bin.Remaining() && eod == Unpack(head[..4])
    ensures old(bin.fd.NeverFails()) ==> bin.fd.NeverFails() && (ok <==> 8 * tables <= |old(bin.Remaining())|)
  {
    hide InBuffer.Remaining, Pack, Unpack, Heads;
    ghost var all := bin.Remaining();
    head := [];
    ok, eod := GetNum(bin);
    if !ok { return; }
    UnpackPack(eod);
    head := Pack(eod);
    assert Heads(all, eod, head, bin.Remaining()) by { HeadsAtStart(all, eod, bin.Remaining()); }
    var pos: uint32 := 4;
    ghost var words := 1;
    while pos < 8 * tables
      invariant bin.Valid() && pos == |head| == 4 * words && 1 <= words <= 2 * tables
      invariant |all| == |head| + |bin.Remaining()| && Heads(all, eod, head, bin.Remaining())
      invariant old(bin.fd.NeverFails()) ==> bin.fd.NeverFails()
    {
      var num;
      ok, num := GetNum(bin);
      if !ok { return; }
      HeadsOn(all, eod, head, Pack(num), bin.Remaining());
      head := head + Pack(num);
      pos, words := pos + 4, words + 1;
    }
    HeadsDone(all, eod, head, bin.Remaining());
    return true, eod, head;
  }

  ghost predicate Heads(all: seq<byte>, first: uint32, head: seq<byte>, rest: seq<byte>) {
    all == head + rest && |head| >= 4 && head[..4] == Pack(first)
  }

  lemma HeadsAtStart(all: seq<byte>, first: uint32, rest: seq<byte>)
    requires all == Pack(first) + rest
    ensures Heads(all, first, Pack(first), rest)
  {
    hide Pack;
  }

  lemma HeadsOn(all: seq<byte>, first: uint32, head: seq<byte>, word: seq<byte>, rest: seq<byte>)
    requires Heads(all, first, head, word + rest)
    ensures Heads(all, first, head + word, rest) && |all| == |head + word| + |rest|
  {
    hide Pack;
  }

  lemma HeadsDone(all: seq<byte>, first: uint32, head: seq<byte>, rest: seq<byte>)
    requires Heads(all, first, head, rest)
    ensures all == head + rest && |head| >= 4 && head[..4] == Pack(first)
  {
  }

  /** In a finished file, record i follows the header and the first i records. */
  lemma {:induction false} RecordFollows(tables: nat, rs: seq<Record>, i: nat, head: seq<byte>, s: seq<byte>)
    requires Fits(tables, rs) && i < |rs| && |head| == 8 * tables
    requires Image(tables, rs) == head + DataArea(rs[..i]) + s
    ensures WholeRecord(s)
    ensures forall r, rest :: s == RecordBytes(r) + rest ==> r == rs[i]
  {
    hide Image, DataArea, Pack, Unpack, Fits;
    ImageRecord(tables, rs, i);
    var front := head + DataArea(rs[..i]);
    var f, p, r0 := Image(tables, rs), PosOf(tables, rs, i), rs[i];
    var k0, d0 := |r0.key|, |r0.data|;
    SliceRight(front, s, 0, 4);
    SliceRight(front, s, 4, 8);
    SliceRight(front, s, 8, 8 + k0);
    SliceRight(front, s, 8 + k0, 8 + k0 + d0);
    UnpackPack(k0);
    UnpackPack(d0);
    forall r, rest | s == RecordBytes(r) + rest
      ensures r == r0
    {
      var b := RecordBytes(r);
      assert b[..4] == Pack(|r.key|) && b[4..8] == Pack(|r.data|);
      UnpackPack(|r.key|);
      UnpackPack(|r.data|);
      assert s[..4] == b[..4] && s[4..8] == b[4..8];
      assert s[8..8 + k0] == r.key && s[8 + k0..8 + k0 + d0] == r.data;
    }
  }

  /** `cdbdump`. Whatever the input, it prints the records that follow the header; for a finished file
      these are the records added, in order. */
  method Dump(bin: InBuffer, bout: OutBuffer, tables: nat, ghost rs: seq<Record>)
    returns (ok: bool, ghost printed: seq<Record>)
    requires bin.Valid() && bout.Valid() && Apart(bin, bout) && 0 < tables <= 0x1000_0000
    modifies bin`p, bin`n, bin.x, bin.fd`offset, bin.fd`script, bout`p, bout.x, bout.fd
    ensures bin.Valid() && bout.Valid()
    ensures ok ==> bout.fd.content == Written(old(bout.Flushed()), old(bout.End()), Text(printed))
    ensures ok ==>
              exists head :: |head| == 8 * tables &&
                             old(bin.Remaining()) == head + DataArea(printed) + bin.Remaining()
    ensures ok && Fits(tables, rs) && old(bin.Remaining()) == Image(tables, rs) ==> printed == rs
    ensures old(bin.fd.NeverFails()) && old(bout.fd.NeverFails()) ==>
              (Fits(tables, rs) && old(bin.Remaining()) == Image(tables, rs) ==> ok)
  {
    hide Consumed, InBuffer.Remaining, Sent, Pack, Unpack, RecordText, RecordBytes, Image, DataArea, Body, Written;
    hide Fits;
    ghost var base, at, all := bout.Flushed(), bout.End(), bin.Remaining();
    ghost var fin := Fits(tables, rs) && all == Image(tables, rs);
    var strnum := new byte[FMT_ULONG](_ => 0);
    printed := [];
    StartSent(bout);
    if fin { FirstWordIsEod(tables, rs); HeaderInside(tables, rs); }
    var eod; ghost var head;
    ok, eod, head := SkipHeader(bin, tables);
    if !ok { return; }
    var pos: uint32 := 8 * tables;
    EmptyParts();
    assert head + [] == head && [] + bin.Remaining() == bin.Remaining();
    ConsumedIs(all, head, [], bin.Remaining());
    assert fin ==> eod == Eod(tables, rs) by {
      if fin { SliceLeft(head, bin.Remaining(), 0, 4); }
    }
    while pos < eod
      invariant bin.Valid() && bout.Valid()
      invariant Consumed(all, head, DataArea(printed), bin.Remaining())
      invariant Sent(bout, base, at, Body(printed))
      invariant fin ==> |printed| <= |rs| && printed == rs[..|printed|] && pos == PosOf(tables, rs, |printed|)
      invariant old(bin.fd.NeverFails()) ==> bin.fd.NeverFails()
      invariant old(bout.fd.NeverFails()) ==> bout.fd.NeverFails()
      decreases |bin.Remaining()|
    {
      if fin {
        PosOfEnd(tables, rs, |printed|);
        ConsumedIs(all, head, DataArea(printed), bin.Remaining());
        RecordFollows(tables, rs, |printed|, head, bin.Remaining());
      }
      var klen, dlen; ghost var r;
      ok, klen, dlen, r := DumpRecord(bin, bout, strnum, base, at, Body(printed));
      if !ok { return; }
      BodyAppend(printed, r);
      DataAreaAppend(printed, r);
      ConsumedNext(all, head, DataArea(printed), RecordBytes(r), bin.Remaining());
      if fin { DumpStep(tables, rs, |printed|, r); }
      printed := printed + [r];
      pos := Wrap(pos + 8 + klen + dlen);
    }
    if fin { PosOfEnd(tables, rs, |printed|); }
    ConsumedIs(all, head, DataArea(printed), bin.Remaining());
    ok := PutBytes(bout, [NL], base, at, Body(printed));
    if !ok { return; }
    ok := FlushSent(bout, base, at, Text(printed));
  }

  /** What has been read of the input, and what has not. */
  ghost predicate Consumed(all: seq<byte>, head: seq<byte>, area: seq<byte>, rest: seq<byte>) {
    all == head + area + rest
  }

  lemma ConsumedNext(all: seq<byte>, head: seq<byte>, area: seq<byte>, more: seq<byte>, rest: seq<byte>)
    requires Consumed(all, head, area, more + rest)
    ensures Consumed(all, head, area + more, rest)
  {
  }

  lemma ConsumedIs(all: seq<byte>, head: seq<byte>, area: seq<byte>, rest: seq<byte>)
    ensures Consumed(all, head, area, rest) <==> all == head + area + rest
  {
  }

  lemma EmptyParts()
    ensures DataArea([]) == [] && Body([]) == []
  {
  }

  lemma HeaderInside(tables: nat, rs: seq<Record>)
    requires Fits(tables, rs)
    ensures 8 * tables <= |Image(tables, rs)|
  {
  }

  lemma {:induction false} DumpStep(tables: nat, rs: seq<Record>, i: nat, r: Record)
    requires Fits(tables, rs) && i < |rs| && r == rs[i]
    ensures rs[..i] + [r] == rs[..i + 1]
    ensures PosOf(tables, rs, i + 1) == PosOf(tables, rs, i) + 8 + |r.key| + |r.data| < TWO32
  {
    hide Image;
    ImageRecord(tables, rs, i);
  }

  lemma StartSent(o: OutBuffer)
    requires o.Valid()
    ensures Sent(o, o.Flushed(), o.End(), [])
  {
  }

  method FlushSent(o: OutBuffer, ghost base: seq<byte>, ghost at: nat, ghost bytes: seq<byte>) returns (ok: bool)
    requires o.Valid() && Sent(o, base, at, bytes)
    modifies o`p, o.fd
    ensures o.Valid()
    ensures ok ==> o.fd.content == Written(base, at, bytes)
    ensures old(o.fd.NeverFails()) ==> ok
  {
    hide Written;
    ok := o.Flush();
  }

  // cdbmake

  ghost predicate ApartFrom(bin: InBuffer, m: Maker) {
    bin.x != m.b.x && bin.x != m.final && bin.fd != m.b.fd
  }

  /** One of the two decimal loops: digits up to `stop`, guarded against overflow. */
  method ReadNum(bin: InBuffer, stop: byte) returns (ok: bool, num: uint32)
    requires bin.Valid()
    modifies bin`p, bin`n, bin.x, bin.fd`offset, bin.fd`script
    ensures bin.Valid()
    ensures ok ==> ParseNum(old(bin.Remaining()), stop, 0) == Good(num, bin.Remaining())
    ensures old(bin.fd.NeverFails()) ==> bin.fd.NeverFails() && (ok <==> ParseNum(old(bin.Remaining()), stop, 0).Good?)
  {
    hide InBuffer.Remaining;
    num := 0;
    while true
      invariant bin.Valid()
      invariant ParseNum(old(bin.Remaining()), stop, 0) == ParseNum(bin.Remaining(), stop, num)
      invariant old(bin.fd.NeverFails()) ==> bin.fd.NeverFails()
      decreases |bin.Remaining()|
    {
      ghost var s := bin.Remaining();
      var r, c := bin.GetC();
      if r <= 0 { return false, num; }
      assert s[0] == c && s[1..] == bin.Remaining();
      if c == stop { return true, num; }
      if c < ZERO || c > ZERO + 9 { return false, num; }
      if num > LENGTH_GUARD { return false, num; }
      num := num * 10 + (c - ZERO);
    }
  }

  /** The key loop: bytes go to the file and into the running hash. */
  method CopyKey(bin: InBuffer, m: Maker, klen: nat, ghost before: seq<byte>) returns (ok: bool, h: uint32)
    requires bin.Valid() && m.b.Valid() && ApartFrom(bin, m) && m.Streamed(before)
    modifies bin`p, bin`n, bin.x, bin.fd`offset, bin.fd`script, m.b`p, m.b.x, m.b.fd
    ensures bin.Valid() && m.b.Valid()
    ensures ok ==> klen <= |old(bin.Remaining())| && bin.Remaining() == old(bin.Remaining())[klen..]
    ensures ok ==> m.Streamed(before + old(bin.Remaining())[..klen]) && h == Hash(old(bin.Remaining())[..klen])
    ensures old(bin.fd.NeverFails()) ==> bin.fd.NeverFails()
    ensures old(m.b.fd.NeverFails()) ==> m.b.fd.NeverFails()
    ensures old(bin.fd.NeverFails()) && old(m.b.fd.NeverFails()) ==> (ok <==> klen <= |old(bin.Remaining())|)
  {
    hide InBuffer.Remaining, Maker.Streamed, HashAdd;
    ghost var all := bin.Remaining();
    assert before + all[..0] == before;
    h := HASH_START;
    var i := 0;
    while i < klen
      invariant bin.Valid() && m.b.Valid() && i <= klen && i <= |all|
      invariant bin.Remaining() == all[i..]
      invariant m.Streamed(before + all[..i]) && h == Hash(all[..i])
      invariant old(bin.fd.NeverFails()) ==> bin.fd.NeverFails()
      invariant old(m.b.fd.NeverFails()) ==> m.b.fd.NeverFails()
    {
      var r, c := bin.GetC();
      if r <= 0 { return false, h; }
      assert all[i] == c && all[i + 1..] == bin.Remaining();
      ok := m.PutByte(c, before + all[..i]);
      if !ok { return; }
      assert before + all[..i] + [c] == before + all[..i + 1];
      assert all[..i + 1][..i] == all[..i];
      h := HashAdd(h, c);
      i := i + 1;
    }
    return true, h;
  }

  /** The data loop. */
  method CopyData(bin: InBuffer, m: Maker, dlen: nat, ghost before: seq<byte>) returns (ok: bool)
    requires bin.Valid() && m.b.Valid() && ApartFrom(bin, m) && m.Streamed(before)
    modifies bin`p, bin`n, bin.x, bin.fd`offset, bin.fd`script, m.b`p, m.b.x, m.b.fd
    ensures bin.Valid() && m.b.Valid()
    ensures ok ==> dlen <= |old(bin.Remaining())| && bin.Remaining() == old(bin.Remaining())[dlen..]
    ensures ok ==> m.Streamed(before + old(bin.Remaining())[..dlen])
    ensures old(bin.fd.NeverFails()) ==> bin.fd.NeverFails()
    ensures old(m.b.fd.NeverFails()) ==> m.b.fd.NeverFails()
    ensures old(bin.fd.NeverFails()) && old(m.b.fd.NeverFails()) ==> (ok <==> dlen <= |old(bin.Remaining())|)
  {
    hide InBuffer.Remaining, Maker.Streamed;
    ghost var all := bin.Remaining();
    assert before + all[..0] == before;
    var i := 0;
    while i < dlen
      invariant bin.Valid() && m.b.Valid() && i <= dlen && i <= |all|
      invariant bin.Remaining() == all[i..]
      invariant m.Streamed(before + all[..i])
      invariant old(bin.fd.NeverFails()) ==> bin.fd.NeverFails()
      invariant old(m.b.fd.NeverFails()) ==> m.b.fd.NeverFails()
    {
      var r, c := bin.GetC();
      if r <= 0 { return false; }
      assert all[i] == c && all[i + 1..] == bin.Remaining();
      ok := m.PutByte(c, before + all[..i]);
      if !ok { return; }
      assert before + all[..i] + [c] == before + all[..i + 1];
      i := i + 1;
    }
    return true;
  }

  /** One literal byte of the format. */
  method Expect(bin: InBuffer, c: byte) returns (ok: bool)
    requires bin.Valid()
    modifies bin`p, bin`n, bin.x, bin.fd`offset, bin.fd`script
    ensures bin.Valid()
    ensures ok ==> old(bin.Remaining()) != [] && old(bin.Remaining())[0] == c
    ensures ok ==> bin.Remaining() == old(bin.Remaining())[1..]
    ensures old(bin.fd.NeverFails()) ==> bin.fd.NeverFails()
    ensures old(bin.fd.NeverFails()) ==> (ok <==> old(bin.Remaining()) != [] && old(bin.Remaining())[0] == c)
  {
    var r, ch := bin.GetC();
    ok := r == 1 && ch == c;
  }

  /** key -> data: the bytes of both reach the file. */
  method CopyPair(bin: InBuffer, m: Maker, klen: uint32, dlen: uint32, ghost before: seq<byte>)
    returns (ok: bool, h: uint32)
    requires bin.Valid() && m.b.Valid() && ApartFrom(bin, m) && m.Streamed(before)
    modifies bin`p, bin`n, bin.x, bin.fd`offset, bin.fd`script, m.b`p, m.b.x, m.b.fd
    ensures bin.Valid() && m.b.Valid()
    ensures old(bin.fd.NeverFails()) ==> bin.fd.NeverFails()
    ensures old(m.b.fd.NeverFails()) ==> m.b.fd.NeverFails()
    ensures var s := old(bin.Remaining());
            && (ok ==> PairHead(s, klen, dlen) && bin.Remaining() == s[klen + 2 + dlen..])
            && (ok ==> m.Streamed(before + s[..klen] + s[klen + 2..][..dlen]) && h == Hash(s[..klen]))
            && (old(bin.fd.NeverFails()) && old(m.b.fd.NeverFails()) ==> (ok <==> PairHead(s, klen, dlen)))
  {
    hide InBuffer.Remaining, Maker.Streamed, Hash;
    ghost var s := bin.Remaining();
    PairSteps(s, klen, dlen);
    ok, h := CopyKey(bin, m, klen, before);
    if !ok { return; }
    ok := Expect(bin, MINUS);
    if !ok { return; }
    ok := Expect(bin, GREATER);
    if !ok { return; }
    ok := CopyData(bin, m, dlen, before + s[..klen]);
  }

  /** s starts with a key, an arrow and data of these lengths. */
  predicate PairHead(s: seq<byte>, klen: uint32, dlen: uint32) {
    klen + 2 + dlen <= |s| && s[klen] == MINUS && s[klen + 1] == GREATER
  }

  /** key -> data newline: the record's bytes reach the file and its entry is remembered. */
  method MakePair(bin: InBuffer, m: Maker, klen: uint32, dlen: uint32) returns (ok: bool)
    requires bin.Valid() && m.Valid() && ApartFrom(bin, m) && m.Streamed(DataArea(m.records))
    modifies bin`p, bin`n, bin.x, bin.fd`offset, bin.fd`script
    modifies m`head, m`numentries, m`pos, m`records, m.b`p, m.b.x, m.b.fd
    ensures bin.Valid() && m.b.Valid()
    ensures old(bin.fd.NeverFails()) ==> bin.fd.NeverFails()
    ensures old(m.b.fd.NeverFails()) ==> m.b.fd.NeverFails()
    ensures var p := ParsePair(old(bin.Remaining()), klen, dlen);
            && (ok ==> p.Good? && bin.Remaining() == p.rest)
            && (ok ==> m.Valid() && m.records == old(m.records) + [p.value] && m.Streamed(DataArea(m.records)))
            && (old(bin.fd.NeverFails()) && old(m.b.fd.NeverFails()) ==>
                  (ok <==> p.Good? && Eod(m.Tables(), old(m.records) + [p.value]) < TWO32))
  {
    hide InBuffer.Remaining, Maker.Streamed, Hash, DataArea, Eod, Pack, Pow2, Entries, Contents, ParsePair;
    hide RecordBytes, PairHead;
    ghost var s, area := bin.Remaining(), DataArea(m.records);
    ok := m.AddBegin(klen, dlen, area);
    if !ok { return; }
    var h;
    PairIs(s, klen, dlen, area);
    ok, h := CopyPair(bin, m, klen, dlen, area + Pack(klen) + Pack(dlen));
    if !ok { return; }
    ghost var r := Record(s[..klen], s[klen + 2..][..dlen]);
    DataAreaAppend(m.records, r);
    ok := m.AddEnd(klen, dlen, h, r);
    if !ok { return; }
    ok := Expect(bin, NL);
  }

  /** What ParsePair says, in terms of the steps. */
  lemma {:induction false} PairIs(s: seq<byte>, klen: uint32, dlen: uint32, area: seq<byte>)
    ensures PairHead(s, klen, dlen) ==> klen + 2 + dlen <= |s|
    ensures PairHead(s, klen, dlen) ==>
              var r := Record(s[..klen], s[klen + 2..][..dlen]);
              area + Pack(klen) + Pack(dlen) + s[..klen] + s[klen + 2..][..dlen] == area + RecordBytes(r)
    ensures ParsePair(s, klen, dlen) ==
            if PairHead(s, klen, dlen) && s[klen + 2 + dlen..] != [] && s[klen + 2 + dlen..][0] == NL
            then Good(Record(s[..klen], s[klen + 2..][..dlen]), s[klen + 2 + dlen..][1..]) else Bad
  {
    hide Pack;
    if klen + 2 + dlen <= |s| {
      assert s[klen + 2..][..dlen] == s[klen + 2..klen + 2 + dlen];
      var t := s[klen + 2 + dlen..];
      if t != [] {
        assert t[1..] == s[klen + dlen + 3..];
      }
    }
  }

  /** The pieces of s that the steps of CopyPair take one after the other. */
  lemma {:induction false} PairSteps(s: seq<byte>, klen: uint32, dlen: uint32)
    ensures klen < |s| ==> s[klen..][0] == s[klen] && s[klen..][1..] == s[klen + 1..]
    ensures klen + 1 < |s| ==> s[klen + 1..][0] == s[klen + 1] && s[klen + 1..][1..] == s[klen + 2..]
    ensures klen + 2 + dlen <= |s| ==> s[klen + 2..][dlen..] == s[klen + 2 + dlen..]
  {
  }

  /** One record, after its plus sign. */
  method MakeRecord(bin: InBuffer, m: Maker) returns (ok: bool)
    requires bin.Valid() && m.Valid() && ApartFrom(bin, m) && m.Streamed(DataArea(m.records))
    modifies bin`p, bin`n, bin.x, bin.fd`offset, bin.fd`script
    modifies m`head, m`numentries, m`pos, m`records, m.b`p, m.b.x, m.b.fd
    ensures bin.Valid() && m.b.Valid()
    ensures old(bin.fd.NeverFails()) ==> bin.fd.NeverFails()
    ensures old(m.b.fd.NeverFails()) ==> m.b.fd.NeverFails()
    ensures var p := ParseRecord(old(bin.Remaining()));
            && (ok ==> p.Good? && bin.Remaining() == p.rest)
            && (ok ==> m.Valid() && m.records == old(m.records) + [p.value] && m.Streamed(DataArea(m.records)))
            && (old(bin.fd.NeverFails()) && old(m.b.fd.NeverFails()) ==>
                  (ok <==> p.Good? && Eod(m.Tables(), old(m.records) + [p.value]) < TWO32))
  {
    hide InBuffer.Remaining, Maker.Streamed, DataArea, Eod, Pow2, Entries, Contents, ParsePair, ParseNum;
    var klen, dlen;
    ok, klen := ReadNum(bin, COMMA);
    if !ok { return; }
    ok, dlen := ReadNum(bin, COLON);
    if !ok { return; }
    ok := MakePair(bin, m, klen, dlen);
  }

  /** `cdbmake`: accepts exactly the texts of the format whose records fit, and writes their database. */
  method Make(bin: InBuffer, m: Maker) returns (ok: bool)
    requires bin.Valid() && m.Valid() && ApartFrom(bin, m) && m.records == [] && m.Streamed([])
    modifies bin`p, bin`n, bin.x, bin.fd`offset, bin.fd`script
    modifies m`head, m`numentries, m`pos, m`records, m.count, m.start, m.final, m.b`p, m.b.x, m.b.fd
    ensures ok ==> Parse(old(bin.Remaining())).Good?
    ensures ok ==> var rs := Parse(old(bin.Remaining())).value;
              Fits(m.Tables(), rs) && m.b.fd.content == Written(m.base, 0, Image(m.Tables(), rs))
    ensures old(bin.fd.NeverFails()) && old(m.b.fd.NeverFails()) ==>
              var p := Parse(old(bin.Remaining()));
              (ok <==> p.Good? && Fits(m.Tables(), p.value))
  {
    hide InBuffer.Remaining, Maker.Streamed, DataArea, Eod, Pow2, Entries, Contents, ParseRecord, Image, Written;
    ghost var all := bin.Remaining();
    EmptyParts();
    BeforeNone(Parse(all));
    while true
      invariant bin.Valid() && m.Valid() && m.Streamed(DataArea(m.records))
      invariant Parse(all) == Before(m.records, Parse(bin.Remaining()))
      invariant old(bin.fd.NeverFails()) ==> bin.fd.NeverFails()
      invariant old(m.b.fd.NeverFails()) ==> m.b.fd.NeverFails()
      decreases |bin.Remaining()|
    {
      ghost var s := bin.Remaining();
      var r, c := bin.GetC();
      if r <= 0 { return false; }
      assert s[0] == c && s[1..] == bin.Remaining();
      if c == NL { break; }
      if c != PLUS { return false; }
      ghost var p, rs := ParseRecord(s[1..]), m.records;
      if p.Good? {
        BeforeBefore(rs, [p.value], Parse(p.rest));
        OverflowIsFinal(m.Tables(), rs, p.value, Parse(p.rest));
      }
      ok := MakeRecord(bin, m);
      if !ok { return; }
    }
    assert Parse(all).Good? && Parse(all).value == m.records;
    ok := m.Finish();
  }

  /** Once a prefix of the records does not fit, the whole list does not. */
  lemma {:induction false} OverflowIsFinal(tables: nat, rs: seq<Record>, r: Record, p: Parsed<seq<Record>>)
    ensures Eod(tables, rs + [r]) >= TWO32 && p.Good? ==> !Fits(tables, Before(rs, Before([r], p)).value)
  {
    if p.Good? {
      var all := Before(rs, Before([r], p)).value;
      assert all[..|rs| + 1] == rs + [r];
      EodPrefix(tables, all, |rs| + 1);
    }
  }
}
