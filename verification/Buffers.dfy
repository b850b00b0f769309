/** Buffered output and input (cdb/buffer_put.c, cdb/buffer_get.c, cdb/buffer_copy.c). */
module Buffers {
  import opened Words
  import opened Device

  const BUFFER_OUTSIZE := 8192

  /** An output buffer: x[..p] is waiting to be written. */
  class OutBuffer {
    const x: array<byte>
    const fd: File
    var p: nat

    constructor (fd: File, n: nat)
      requires n > 0
      ensures Valid() && this.fd == fd && p == 0 && fresh(x)
    {
      this.fd, p := fd, 0;
      x := new byte[n](_ => 0);
    }

    ghost predicate Valid()
      reads this
    {
      0 < x.Length && p <= x.Length
    }

    /** What the file would hold if the buffer were flushed now. */
    ghost function Flushed(): seq<byte>
      requires Valid()
      reads this, x, fd
    {
      Written(fd.content, fd.offset, x[..p])
    }

    /** Where the next byte put will land. */
    ghost function End(): nat
      reads this, fd
    {
      fd.offset + p
    }

    /** `byte_copy` of buf behind the waiting bytes. */
    method Store(buf: seq<byte>)
      requires Valid() && |buf| <= x.Length - p
      modifies x, this`p
      ensures Valid() && p == old(p) + |buf|
      ensures Flushed() == Written(old(Flushed()), old(End()), buf)
      ensures x[..p] == old(x[..p]) + buf
    {
      forall i | 0 <= i < |buf| {
        x[p + i] := buf[i];
      }
      p := p + |buf|;
      assert x[..p] == old(x[..p]) + buf;
      WrittenTwice(fd.content, fd.offset, old(x[..p]), buf);
    }

    method Flush() returns (ok: bool)
      requires Valid()
      modifies this`p, fd
      ensures Valid() && p == 0
      ensures ok ==> Flushed() == old(Flushed()) == fd.content && End() == old(End())
      ensures old(fd.NeverFails()) ==> ok && fd.NeverFails()
    {
      var n := p;
      if n == 0 { return true; }
      p := 0;
      ok := fd.AllWrite(x[..n]);
    }

    method PutAlign(buf: seq<byte>) returns (ok: bool)
      requires Valid()
      modifies this`p, x, fd
      ensures Valid()
      ensures ok ==> Flushed() == Written(old(Flushed()), old(End()), buf) && End() == old(End()) + |buf|
      ensures old(fd.NeverFails()) ==> ok && fd.NeverFails()
    {
      hide Written;
      var done := 0;
      WrittenNone(Flushed(), End());
      assert buf[..0] == [];
      while |buf| - done > x.Length - p
        invariant Valid() && 0 <= done <= |buf|
        invariant Flushed() == Written(old(Flushed()), old(End()), buf[..done]) && End() == old(End()) + done
        invariant old(fd.NeverFails()) ==> fd.NeverFails()
        decreases |buf| - done, p
      {
        var n := x.Length - p;
        WrittenTwice(old(Flushed()), old(End()), buf[..done], buf[done..done + n]);
        assert buf[..done] + buf[done..done + n] == buf[..done + n];
        Store(buf[done..done + n]);
        done := done + n;
        ok := Flush();
        if !ok { return; }
      }
      WrittenTwice(old(Flushed()), old(End()), buf[..done], buf[done..]);
      assert buf[..done] + buf[done..] == buf;
      Store(buf[done..]);
      return true;
    }

    method Put(buf: seq<byte>) returns (ok: bool)
      requires Valid()
      modifies this`p, x, fd
      ensures Valid()
      ensures ok ==> Flushed() == Written(old(Flushed()), old(End()), buf) && End() == old(End()) + |buf|
      ensures old(fd.NeverFails()) ==> ok && fd.NeverFails()
    {
      hide Written;
      var done, n := 0, x.Length;
      WrittenNone(Flushed(), End());
      assert buf[..0] == [];
      if |buf| > n - p {
        ok := Flush();
        if !ok { return; }
        if n < BUFFER_OUTSIZE { n := BUFFER_OUTSIZE; }
        while |buf| - done > x.Length
          invariant Valid() && p == 0 && 0 <= done <= |buf| && n > 0
          invariant Flushed() == Written(old(Flushed()), old(End()), buf[..done]) && End() == old(End()) + done
          invariant old(fd.NeverFails()) ==> fd.NeverFails()
        {
          if n > |buf| - done { n := |buf| - done; }
          WrittenTwice(old(Flushed()), old(End()), buf[..done], buf[done..done + n]);
          assert buf[..done] + buf[done..done + n] == buf[..done + n];
          assert x[..p] == [];
          WrittenNone(fd.content, fd.offset);
          ok := fd.AllWrite(buf[done..done + n]);
          if !ok { return; }
          WrittenNone(fd.content, fd.offset);
          done := done + n;
        }
      }
      WrittenTwice(old(Flushed()), old(End()), buf[..done], buf[done..]);
      assert buf[..done] + buf[done..] == buf;
      Store(buf[done..]);
      return true;
    }

    /** `buffer_PUTC`. */
    method PutC(c: byte) returns (ok: bool)
      requires Valid()
      modifies this`p, x, fd
      ensures Valid()
      ensures ok ==> Flushed() == Written(old(Flushed()), old(End()), [c]) && End() == old(End()) + 1
      ensures old(fd.NeverFails()) ==> ok && fd.NeverFails()
    {
      if x.Length != p {
        Store([c]);
        return true;
      }
      ok := Put([c]);
    }

    method PutFlush(buf: seq<byte>) returns (ok: bool)
      requires Valid()
      modifies this`p, fd
      ensures Valid() && p == 0
      ensures ok ==> fd.content == Written(old(Flushed()), old(End()), buf) && fd.offset == old(End()) + |buf|
      ensures old(fd.NeverFails()) ==> ok && fd.NeverFails()
    {
      ok := Flush();
      if !ok { return; }
      ok := fd.AllWrite(buf);
    }
  }

  /** Since the file held base, exactly these bytes have been put from offset at on. */
  ghost predicate Sent(o: OutBuffer, base: seq<byte>, at: nat, bytes: seq<byte>)
    requires o.Valid()
    reads o, o.x, o.fd
  {
    o.Flushed() == Written(base, at, bytes) && o.End() == at + |bytes|
  }

  /** `byte_copyr`: copies from the last byte down, so a move towards the end may overlap. */
  method ByteCopyR(x: array<byte>, to: nat, n: nat, from: nat)
    requires from <= to && to + n <= x.Length
    modifies x
    ensures x[to..to + n] == old(x[from..from + n])
    ensures x[..to] == old(x[..to]) && x[to + n..] == old(x[to + n..])
  {
    var k := n;
    while k > 0
      invariant 0 <= k <= n
      invariant forall i :: 0 <= i < x.Length && !(to + k <= i < to + n) ==> x[i] == old(x[i])
      invariant forall i :: to + k <= i < to + n ==> x[i] == old(x[i - to + from])
    {
      k := k - 1;
      x[to + k] := x[from + k];
    }
  }

  /** An input buffer: x[n..] holds the p bytes read from the file and not yet taken. */
  class InBuffer {
    const x: array<byte>
    const fd: File
    var p: nat
    var n: nat

    constructor (fd: File, size: nat)
      requires size > 0
      ensures Valid() && this.fd == fd && p == 0 && fresh(x)
      ensures Remaining() == fd.Rest()
    {
      this.fd, p, n := fd, 0, size;
      x := new byte[size](_ => 0);
    }

    ghost predicate Valid()
      reads this
    {
      0 < x.Length && n + p == x.Length
    }

    /** The bytes that are still to come. */
    ghost function Remaining(): seq<byte>
      requires Valid()
      reads this, x, fd
    {
      x[n..] + fd.Rest()
    }

    method GetThis(want: nat) returns (r: nat, buf: seq<byte>)
      requires Valid()
      modifies this`p, this`n
      ensures Valid() && |buf| == r
      ensures r == if want < old(p) then want else old(p)
      ensures old(Remaining()) == buf + Remaining()
    {
      hide File.Rest;
      var len := want;
      if len > p { len := p; }
      p := p - len;
      buf := x[n..n + len];
      n := n + len;
      assert old(x[n..]) == buf + x[n..];
      return len, buf;
    }

    method Feed() returns (r: int)
      requires Valid()
      modifies this`p, this`n, x, fd`offset, fd`script
      ensures Valid() && Remaining() == old(Remaining())
      ensures r >= 0 ==> r == p
      ensures r == 0 ==> Remaining() == []
      ensures r == -1 || r >= 0
      ensures old(fd.NeverFails()) ==> r >= 0 && fd.NeverFails()
    {
      if p > 0 { return p; }
      var buf;
      r, buf := fd.OneRead(n);
      if r <= 0 { return; }
      hide File.Rest;
      Land(buf);
      p := r;
      n := n - r;
    }

    /** What was read lands at the buffer's start and is moved to its end. */
    method Land(buf: seq<byte>)
      requires |buf| <= x.Length
      modifies x
      ensures x[x.Length - |buf|..] == buf
    {
      forall i | 0 <= i < |buf| {
        x[i] := buf[i];
      }
      assert x[..|buf|] == buf;
      var n := x.Length - |buf|;
      if n > 0 {
        ByteCopyR(x, n, |buf|, 0);
        assert x[n..n + |buf|] == x[n..];
      }
    }

    method BGet(len: nat) returns (r: int, buf: seq<byte>)
      requires Valid()
      modifies this`p, this`n, x, fd`offset, fd`script
      ensures Valid() && -1 <= r <= len
      ensures r >= 0 ==> |buf| == r && old(Remaining()) == buf + Remaining()
      ensures r == 0 && len > 0 ==> old(Remaining()) == []
      ensures r == -1 ==> Remaining() == old(Remaining())
      ensures old(fd.NeverFails()) ==> r >= 0 && fd.NeverFails()
    {
      if p > 0 {
        r, buf := GetThis(len);
        return;
      }
      if n <= len {
        r, buf := fd.OneRead(n);
        return;
      }
      r := Feed();
      buf := [];
      if r <= 0 { return; }
      r, buf := GetThis(len);
    }

    method Get(len: nat) returns (r: int, buf: seq<byte>)
      requires Valid()
      modifies this`p, this`n, x, fd`offset, fd`script
      ensures Valid() && -1 <= r <= len
      ensures r >= 0 ==> |buf| == r && old(Remaining()) == buf + Remaining()
      ensures r == 0 && len > 0 ==> old(Remaining()) == []
      ensures r == -1 ==> Remaining() == old(Remaining())
      ensures old(fd.NeverFails()) ==> r >= 0 && fd.NeverFails()
    {
      if p > 0 {
        r, buf := GetThis(len);
        return;
      }
      if n <= len {
        r, buf := fd.OneRead(len);
        return;
      }
      r := Feed();
      buf := [];
      if r <= 0 { return; }
      r, buf := GetThis(len);
    }

    lemma RemainingHead()
      requires Valid() && p > 0
      ensures |Remaining()| > 0 && Remaining()[0] == x[n]
    {
    }

    /** `buffer_GETC`. */
    method GetC() returns (r: int, c: byte)
      requires Valid()
      modifies this`p, this`n, x, fd`offset, fd`script
      ensures Valid() && -1 <= r <= 1
      ensures r == 1 ==> old(Remaining()) == [c] + Remaining()
      ensures r == 0 ==> old(Remaining()) == []
      ensures r == -1 ==> Remaining() == old(Remaining())
      ensures old(fd.NeverFails()) ==> r >= 0 && fd.NeverFails()
    {
      hide Remaining;
      if p > 0 {
        c := x[n];
        RemainingHead();
        Seek(1);
        return 1, c;
      }
      var buf;
      r, buf := Get(1);
      c := if r == 1 then buf[0] else 0;
    }

    /** `buffer_PEEK`, the bytes waiting in the buffer. */
    method Peek() returns (buf: seq<byte>)
      requires Valid()
      ensures |buf| == p && buf <= Remaining()
    {
      buf := x[n..n + p];
      assert buf == x[n..];
    }

    /** `buffer_SEEK`. */
    method Seek(len: nat)
      requires Valid() && len <= p
      modifies this`p, this`n
      ensures Valid() && p == old(p) - len
      ensures Remaining() == old(Remaining())[len..]
    {
      n, p := n + len, p - len;
      assert x[n..] == old(x[n..])[len..];
    }
  }

  ghost predicate Split(all: seq<byte>, moved: seq<byte>, rest: seq<byte>) {
    all == moved + rest
  }

  lemma MoveOn(all: seq<byte>, moved: seq<byte>, x: seq<byte>, rest: seq<byte>)
    requires Split(all, moved, rest) && x <= rest
    ensures Split(all, moved + x, rest[|x|..])
  {
  }

  lemma SplitEnds(all: seq<byte>)
    ensures Split(all, [], all)
    ensures forall moved :: Split(all, moved, []) ==> moved == all
  {
  }

  /** `buffer_copy`: moves everything that remains; 0 at the end of the input. */
  method Copy(bout: OutBuffer, bin: InBuffer) returns (r: int)
    requires bout.Valid() && bin.Valid()
    requires bout.x != bin.x && bout.fd != bin.fd
    modifies bout`p, bout.x, bout.fd, bin`p, bin`n, bin.x, bin.fd`offset, bin.fd`script
    ensures bout.Valid() && bin.Valid()
    ensures r == 0 || r == -2 || r == -3
    ensures r == 0 ==> bin.Remaining() == []
    ensures r == 0 ==> bout.Flushed() == Written(old(bout.Flushed()), old(bout.End()), old(bin.Remaining()))
    ensures r == 0 ==> bout.End() == old(bout.End()) + |old(bin.Remaining())|
    ensures old(bin.fd.NeverFails()) && old(bout.fd.NeverFails()) ==> r == 0
  {
    hide Split, Written, OutBuffer.Flushed, OutBuffer.End, InBuffer.Remaining, File.Rest;
    ghost var all, base, at := bin.Remaining(), bout.Flushed(), bout.End();
    ghost var moved: seq<byte> := [];
    SplitEnds(all);
    WrittenNone(base, at);
    while true
      invariant bout.Valid() && bin.Valid() && Split(all, moved, bin.Remaining())
      invariant bout.Flushed() == Written(base, at, moved) && bout.End() == at + |moved|
      invariant old(bin.fd.NeverFails()) ==> bin.fd.NeverFails()
      invariant old(bout.fd.NeverFails()) ==> bout.fd.NeverFails()
      decreases |bin.Remaining()|
    {
      var n := bin.Feed();
      if n < 0 { return -2; }
      if n == 0 { return 0; }
      var x := bin.Peek();
      WrittenTwice(base, at, moved, x);
      var ok := bout.Put(x);
      if !ok { return -3; }
      MoveOn(all, moved, x, bin.Remaining());
      bin.Seek(n);
      moved := moved + x;
    }
  }
}
