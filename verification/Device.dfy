/** A file descriptor: bytes, an offset, and an operating system that may move fewer
    bytes than asked, interrupt a call, or fail. The system's behaviour is a finite
    script of outcomes, arbitrary for every proof; once it is used up calls complete. */
module Device {
  import opened Words

  datatype Outcome = Moves(n: nat) | Interrupted | Fails

  /** The content c with the bytes b written at offset o; a gap reads as zeros. */
  function Splice(c: seq<byte>, o: nat, b: seq<byte>): (s: seq<byte>)
    ensures |s| >= o + |b| && |s| >= |c|
  {
    (if o <= |c| then c[..o] else c + seq(o - |c|, i => 0)) + b +
    (if o + |b| <= |c| then c[o + |b|..] else [])
  }

  /** Writing nothing leaves the file alone, even beyond its end. */
  function Written(c: seq<byte>, o: nat, b: seq<byte>): seq<byte> {
    if b == [] then c else Splice(c, o, b)
  }

  lemma WrittenNone(c: seq<byte>, o: nat)
    ensures Written(c, o, []) == c
  {
  }

  /** Two adjacent writes are one. */
  lemma WrittenTwice(c: seq<byte>, o: nat, a: seq<byte>, b: seq<byte>)
    ensures Written(Written(c, o, a), o + |a|, b) == Written(c, o, a + b)
  {
    if a == [] {
      assert a + b == b;
    } else if b == [] {
      assert a + b == a;
    } else {
      var s, t := Splice(Splice(c, o, a), o + |a|, b), Splice(c, o, a + b);
      assert |s| == |t|;
      forall i | 0 <= i < |s|
        ensures s[i] == t[i]
      {
      }
    }
  }

  /** Writing the head of a file last: it covers the hole in front of the body. */
  lemma WrittenHeadLast(c: seq<byte>, head: seq<byte>, body: seq<byte>)
    ensures Written(Written(c, |head|, body), 0, head) == Written(c, 0, head + body)
  {
    if head == [] {
      assert head + body == body;
    } else {
      var s, t := Splice(Written(c, |head|, body), 0, head), Splice(c, 0, head + body);
      assert |s| == |t|;
      forall i | 0 <= i < |s|
        ensures s[i] == t[i]
      {
      }
    }
  }

  /** A file written from its start is what was written, if it was not longer before. */
  lemma WrittenOver(c: seq<byte>, b: seq<byte>)
    requires |c| <= |b|
    ensures Written(c, 0, b) == b
  {
  }

  class File {
    var content: seq<byte>
    var offset: nat
    var script: seq<Outcome>

    constructor (content: seq<byte>, script: seq<Outcome>)
      ensures this.content == content && this.script == script && offset == 0
    {
      this.content, this.script, offset := content, script, 0;
    }

    /** What is left to read. */
    function Rest(): seq<byte>
      reads this
    {
      if offset <= |content| then content[offset..] else []
    }

    predicate NeverFails()
      reads this
    {
      Fails !in script
    }

    method SeekSet(pos: nat)
      modifies this`offset
      ensures offset == pos
    {
      offset := pos;
    }

    /** `write`: w bytes of buf are written, or w is -1 and nothing is. */
    method Write(buf: seq<byte>) returns (w: int, interrupted: bool)
      modifies this
      ensures -1 <= w <= |buf|
      ensures w >= 0 ==> offset == old(offset) + w && content == Written(old(content), old(offset), buf[..w])
      ensures w == -1 ==> offset == old(offset) && content == old(content)
      ensures interrupted ==> w == -1
      ensures old(script) == [] ==> w == |buf| && script == []
      ensures old(script) != [] ==> script == old(script[1..])
      ensures w == -1 && !interrupted ==> old(!NeverFails())
    {
      w, interrupted := |buf|, false;
      if script != [] {
        match script[0] {
          case Moves(n) => w := if n < |buf| then n else |buf|;
          case Interrupted => w, interrupted := -1, true;
          case Fails => w := -1;
        }
        script := script[1..];
      }
      if w >= 0 {
        content := Written(content, offset, buf[..w]);
        offset := offset + w;
      }
    }

    /** `read`: at most len bytes from the offset; no bytes mean the end of the file. */
    method Read(len: nat) returns (r: int, buf: seq<byte>, interrupted: bool)
      modifies this`offset, this`script
      ensures -1 <= r <= len
      ensures r >= 0 ==> |buf| == r && old(Rest()) == buf + Rest()
      ensures r == 0 && len > 0 ==> old(Rest()) == []
      ensures r == -1 ==> Rest() == old(Rest())
      ensures interrupted ==> r == -1
      ensures old(script) == [] ==> script == [] && !interrupted
      ensures old(script) != [] ==> script == old(script[1..])
      ensures r == -1 && !interrupted ==> old(!NeverFails())
    {
      var rest := Rest();
      r, interrupted, buf := if |rest| < len then |rest| else len, false, [];
      if script != [] {
        match script[0] {
          case Moves(n) => if 0 < n < r { r := n; }
          case Interrupted => r, interrupted := -1, true;
          case Fails => r := -1;
        }
        script := script[1..];
      }
      if r > 0 {
        buf := rest[..r];
        offset := offset + r;
      }
    }

    /** `allwrite`: short and interrupted writes are continued until all is written. */
    method AllWrite(buf: seq<byte>) returns (ok: bool)
      modifies this
      ensures ok ==> offset == old(offset) + |buf|
      ensures ok ==> content == Written(old(content), old(offset), buf)
      ensures !ok ==> exists k :: 0 <= k < |buf| && content == Written(old(content), old(offset), buf[..k])
      ensures old(NeverFails()) ==> ok && NeverFails()
    {
      var done := 0;
      while done < |buf|
        invariant 0 <= done <= |buf|
        invariant offset == old(offset) + done
        invariant content == Written(old(content), old(offset), buf[..done])
        invariant old(NeverFails()) ==> NeverFails()
        decreases |buf| - done, |script|
      {
        var w, interrupted := Write(buf[done..]);
        if w == -1 {
          if interrupted { continue; }
          return false;
        }
        WrittenTwice(old(content), old(offset), buf[..done], buf[done..][..w]);
        assert buf[..done] + buf[done..][..w] == buf[..done + w];
        done := done + w;
      }
      assert buf[..done] == buf;
      return true;
    }

    /** `oneread`: a read that is tried again while it is interrupted. */
    method OneRead(len: nat) returns (r: int, buf: seq<byte>)
      modifies this`offset, this`script
      ensures -1 <= r <= len
      ensures r >= 0 ==> |buf| == r && old(Rest()) == buf + Rest()
      ensures r == 0 && len > 0 ==> old(Rest()) == []
      ensures r == -1 ==> Rest() == old(Rest())
      ensures old(NeverFails()) ==> r != -1 && NeverFails()
    {
      while true
        invariant Rest() == old(Rest())
        invariant old(NeverFails()) ==> NeverFails()
        decreases |script|
      {
        var interrupted;
        r, buf, interrupted := Read(len);
        if !interrupted { return; }
      }
    }
  }
}
