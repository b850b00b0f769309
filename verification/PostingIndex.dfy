/** Adding words to an index and erasing a document from it: `add`, `del`, `substitute`
    (examples/IR/posting.cpp), on the path that fetches and stores postings in a database. */
module PostingIndex {
  import opened Words
  import opened Sequences
  import opened PostingFormat
  import opened PostingFind

  type Word = s: string | |s| < 0x1_0000_0000

  /** A string with spare room: the bytes behind `size` are whatever the memory holds. */
  class UString {
    var rep: array<byte>
    var size: nat

    constructor Empty(capacity: nat)
      ensures Valid() && size == 0 && rep.Length == capacity && fresh(rep)
    {
      size := 0;
      rep := new byte[capacity];
    }

    /** `duplicate`: a private copy without spare room. */
    constructor Copy(s: seq<byte>)
      ensures Valid() && Contents() == s && rep[..] == s && fresh(rep)
    {
      size := |s|;
      rep := new byte[|s|](i requires 0 <= i < |s| => s[i]);
    }

    ghost predicate Valid()
      reads this
    {
      size <= rep.Length
    }

    ghost function Contents(): seq<byte>
      requires Valid()
      reads this, rep
    {
      rep[..size]
    }

    /** `reserve`: moves to a larger buffer and takes along the first `size` bytes only. */
    method Reserve(n: nat)
      requires Valid() && size <= n
      modifies this`rep
      ensures Valid() && rep.Length == n && fresh(rep)
      ensures rep[..size] == old(rep[..size])
    {
      var a := new byte[n];
      forall i | 0 <= i < size {
        a[i] := rep[i];
      }
      rep := a;
    }

    /** Overwrites bytes in place, within the capacity. */
    method Poke(at: nat, s: seq<byte>)
      requires Valid() && at + |s| <= rep.Length
      modifies rep
      ensures rep[..] == Overwrite(old(rep[..]), at, s)
    {
      forall i | 0 <= i < |s| {
        rep[at + i] := s[i];
      }
      assert rep[..] == rep[..at] + rep[at..at + |s|] + rep[at + |s|..];
    }
  }

  function Overwrite(raw: seq<byte>, at: nat, s: seq<byte>): (r: seq<byte>)
    requires at + |s| <= |raw|
    ensures |r| == |raw|
  {
    raw[..at] + s + raw[at + |s|..]
  }

  /** The bytes of a posting whose last entry e may still lack its positions. */
  function OpenBytes(h: nat, front: seq<Entry>, e: Entry): (s: seq<byte>)
    requires HeaderSize(h) && ValidEntries(h, front) && Sized(h, e) && 4 + |Area(h, front)| < SIZE_LIMIT
    ensures |s| == 4 + |Area(h, front)| + h + 4 * |e.positions|
  {
    Pack(4 + |Area(h, front)|) + Area(h, front) + EntryBytes(h, e)
  }

  /** The buffer begins with these bytes. */
  ghost predicate Open(h: nat, raw: seq<byte>, front: seq<Entry>, e: Entry) {
    && HeaderSize(h) && ValidEntries(h, front) && Sized(h, e) && 4 + |Area(h, front)| < SIZE_LIMIT
    && OpenBytes(h, front, e) <= raw
  }

  /** With at least one position this is a posting. */
  lemma {:induction false} OpenIsBlob(h: nat, front: seq<Entry>, e: Entry)
    requires HeaderSize(h) && ValidEntries(h, front) && ValidEntry(h, e) &&
             4 + |Area(h, front)| + h + 4 * |e.positions| < SIZE_LIMIT
    ensures FitsPosting(h, front + [e]) && Blob(h, front + [e]) == OpenBytes(h, front, e)
  {
    hide Pack, EntryBytes;
    var es := front + [e];
    AreaOne(h, e);
    AreaConcat(h, front, [e]);
    assert es[..|es| - 1] == front;
  }

  /** A posting is open at its last entry. */
  lemma {:induction false} BlobIsOpen(h: nat, es: seq<Entry>)
    requires FitsPosting(h, es)
    ensures var n := |es| - 1;
            && ValidEntries(h, es[..n]) && ValidEntry(h, es[n])
            && LastOffset(h, es) == 4 + |Area(h, es[..n])|
            && LastOffset(h, es) + h + 4 * |es[n].positions| == |Blob(h, es)|
            && Blob(h, es) == OpenBytes(h, es[..n], es[n])
  {
    hide Pack, EntryBytes;
    AreaSplit(h, es, |es| - 1);
    assert es[|es|..] == [];
  }

  /** Writing the next position and the new frequency of the last entry. */
  lemma {:induction false} OneMorePosition(h: nat, raw: seq<byte>, front: seq<Entry>, e: Entry, pos: uint32)
    requires Open(h, raw, front, e) && |e.positions| + 1 < TWO32 && |OpenBytes(h, front, e)| + 4 <= |raw|
    ensures var off, m := 4 + |Area(h, front)|, |OpenBytes(h, front, e)|;
            Open(h, Overwrite(Overwrite(raw, m, Pack(pos)), off + 8, Pack(|e.positions| + 1)), front,
                 e.(positions := e.positions + [pos]))
  {
    hide Pack;
    var e' := e.(positions := e.positions + [pos]);
    var pre, ws := Pack(4 + |Area(h, front)|) + Area(h, front), WordBytes(e.positions);
    assert e'.positions[..|e.positions|] == e.positions;
    assert EntryBytes(h, e') == e.doc + Pack(|e.positions| + 1) + e.pad + ws + Pack(pos);
    TwoOverwrites(raw, pre, e.doc, Pack(|e.positions|), e.pad, ws, Pack(pos), Pack(|e.positions| + 1));
  }

  /** Appending behind the last part and replacing an inner one. */
  lemma {:induction false} TwoOverwrites(raw: seq<byte>, pre: seq<byte>, doc: seq<byte>, n0: seq<byte>,
      pad: seq<byte>, ws: seq<byte>, p: seq<byte>, n1: seq<byte>)
    requires |doc| == 8 && |n0| == |n1| == |p| == 4 && |pre| + 12 + |pad| + |ws| + 4 <= |raw|
    requires pre + (doc + n0 + pad + ws) <= raw
    ensures pre + (doc + n1 + pad + ws + p) <= Overwrite(Overwrite(raw, |pre| + 12 + |pad| + |ws|, p), |pre| + 8, n1)
  {
    var m := |pre| + 12 + |pad| + |ws|;
    var s, t := pre + (doc + n0 + pad + ws), pre + (doc + n1 + pad + ws + p);
    var r := Overwrite(Overwrite(raw, m, p), |pre| + 8, n1);
    forall i | 0 <= i < m + 4
      ensures t[i] == r[i]
    {
      assert i < m ==> raw[i] == s[i];
    }
  }

  /** `add` refined: a further position of the last entry's document, or a new entry. */
  function AddEntry(es: seq<Entry>, doc: DocId, pad: seq<byte>, pos: uint32): (r: seq<Entry>)
    ensures r != []
  {
    var n := |es| - 1;
    if es != [] && es[n].doc == doc then es[..n] + [es[n].(positions := es[n].positions + [pos])]
    else es + [Entry(doc, pad, [pos])]
  }

  /** The bytes that one more position may need. */
  function Growth(h: nat): nat { h + 4 }

  /** Documents stay unique exactly if the word's document is the last one or new. */
  lemma {:induction false} AddKeepsUnique(es: seq<Entry>, doc: DocId, pad: seq<byte>, pos: uint32)
    requires Unique(es)
    ensures Unique(AddEntry(es, doc, pad, pos)) <==>
            && (forall i :: 0 <= i < |es| - 1 ==> es[i].doc != doc)
            && (es != [] ==> es[|es| - 1].doc == doc || forall i :: 0 <= i < |es| ==> es[i].doc != doc)
  {
    var r, n := AddEntry(es, doc, pad, pos), |es| - 1;
    if es != [] && es[n].doc == doc {
      assert forall i :: 0 <= i < |es| ==> r[i].doc == es[i].doc;
    } else {
      assert forall i :: 0 <= i < |es| ==> r[i] == es[i];
      assert r[|es|].doc == doc;
    }
  }

  /** `checkCapacity`: room for one more position behind an entry of the given size. */
  method CheckCapacity(p: UString, off: uint32, sizeEntry: uint32) returns (space: uint32)
    requires p.Valid() && off + sizeEntry + 4 < SIZE_LIMIT && p.size <= off + sizeEntry + 4
    modifies p`rep
    ensures p.Valid() && space == off + sizeEntry + 4 < p.rep.Length
    ensures p.rep[..p.size] == old(p.rep[..p.size])
    ensures if old(p.rep.Length) > space then p.rep == old(p.rep) && p.rep[..] == old(p.rep[..]) else fresh(p.rep)
  {
    space := off + sizeEntry + 4;
    if space >= p.rep.Length {
      p.Reserve(space * 2);
    }
  }

  /** The end of `add`: the position, the new size, the new frequency. */
  method AppendPosition(h: nat, p: UString, off: uint32, sizeEntry: uint32, pos: uint32, ghost front: seq<Entry>,
      ghost e: Entry)
    requires p.Valid() && Open(h, p.rep[..], front, e)
    requires off == 4 + |Area(h, front)| && sizeEntry == h + 4 * |e.positions| && off + sizeEntry + 4 < SIZE_LIMIT
    requires p.size == off + sizeEntry || (p.size <= off + sizeEntry && off + sizeEntry + 4 < p.rep.Length)
    modifies p, p.rep
    ensures p.Valid()
    ensures var e' := e.(positions := e.positions + [pos]);
            FitsPosting(h, front + [e']) && p.Contents() == Blob(h, front + [e'])
  {
    hide Pack, Unpack, Area, EntryBytes, OpenBytes, Overwrite;
    ghost var raw0 := p.rep[..];
    var space := CheckCapacity(p, off, sizeEntry);
    ghost var raw := p.rep[..];
    StillOpen(h, raw0, raw, front, e, if old(p.rep.Length) > space then |raw0| else p.size);
    OpenFrequency(h, raw, front, e);
    assert p.rep[off + 8..off + 12] == raw[off + 8..off + 12];
    var freq := Unpack(p.rep[off + 8..off + 12]);
    OneMorePosition(h, raw, front, e, pos);
    p.Poke(off + h + 4 * freq, Pack(pos));
    p.size := space;
    p.Poke(off + 8, Pack(freq + 1));
    ghost var e' := e.(positions := e.positions + [pos]);
    OpenIsBlob(h, front, e');
    ghost var raw2 := p.rep[..];
    assert OpenBytes(h, front, e') == raw2[..space] == p.rep[..p.size];
  }

  lemma {:induction false} StillOpen(h: nat, raw0: seq<byte>, raw: seq<byte>, front: seq<Entry>, e: Entry, kept: nat)
    requires Open(h, raw0, front, e) && |OpenBytes(h, front, e)| <= kept <= |raw0| && kept <= |raw|
    requires raw[..kept] == raw0[..kept]
    ensures Open(h, raw, front, e)
  {
    hide Pack, Area, EntryBytes, OpenBytes;
    var s := OpenBytes(h, front, e);
    assert raw[..|s|] == raw[..kept][..|s|] == raw0[..kept][..|s|] == raw0[..|s|] == s;
  }

  /** The frequency word of the last entry. */
  lemma {:induction false} OpenFrequency(h: nat, raw: seq<byte>, front: seq<Entry>, e: Entry)
    requires Open(h, raw, front, e)
    ensures var off := 4 + |Area(h, front)|;
            && off + h + 4 * |e.positions| <= |raw|
            && raw[off..off + 8] == e.doc
            && Unpack(raw[off + 8..off + 12]) == |e.positions|
  {
    hide Pack, Unpack, Area;
    var off, s := 4 + |Area(h, front)|, OpenBytes(h, front, e);
    UnpackPack(|e.positions|);
    var b := EntryBytes(h, e);
    assert b[..8] == e.doc && b[8..12] == Pack(|e.positions|);
    assert s[off..off + 8] == b[..8] && s[off + 8..off + 12] == b[8..12];
    assert raw[off..off + 8] == s[off..off + 8] && raw[off + 8..off + 12] == s[off + 8..off + 12];
  }

  /** Overwriting the first word of a posting and writing an entry head behind it opens a new entry. */
  lemma {:induction false} OpenNew(h: nat, raw: seq<byte>, es: seq<Entry>, doc: DocId)
    requires HeaderSize(h) && ValidEntries(h, es) && 4 + |Area(h, es)| < SIZE_LIMIT && 4 + |Area(h, es)| + h <= |raw|
    requires raw[4..4 + |Area(h, es)|] == Area(h, es)
    ensures var off := 4 + |Area(h, es)|;
            var r := Overwrite(Overwrite(raw, 0, Pack(off)), off, doc + Pack(0));
            Open(h, r, es, Entry(doc, r[off + 12..off + h], []))
  {
    hide Pack, Area;
    var off := 4 + |Area(h, es)|;
    var r := Overwrite(Overwrite(raw, 0, Pack(off)), off, doc + Pack(0));
    var e := Entry(doc, r[off + 12..off + h], []);
    var s := OpenBytes(h, es, e);
    assert |s| == off + h;
    assert raw[4..off] == Area(h, es);
    forall i | 0 <= i < off + h
      ensures s[i] == r[i]
    {
      if 4 <= i < off {
        assert raw[i] == raw[4..off][i - 4];
      }
    }
  }

  /** The database holds the postings of these entries. */
  ghost predicate Stored(h: nat, db: map<Word, seq<byte>>, entries: map<Word, seq<Entry>>) {
    && db.Keys == entries.Keys
    && forall w :: w in entries ==> FitsPosting(h, entries[w]) && db[w] == Blob(h, entries[w])
  }

  lemma {:induction false} StoredUpdate(h: nat, db: map<Word, seq<byte>>, entries: map<Word, seq<Entry>>, w: Word,
      s: seq<byte>, es: seq<Entry>)
    requires Stored(h, db, entries) && FitsPosting(h, es) && s == Blob(h, es)
    ensures Stored(h, db[w := s], entries[w := es])
  {
    hide FitsPosting, Blob;
  }

  class Index {
    const h: nat
    const capacity: nat                        // U_CAPACITY
    var db: map<Word, seq<byte>>
    ghost var entries: map<Word, seq<Entry>>   // what the stored postings mean

    ghost predicate Valid()
      reads this
    {
      && HeaderSize(h) && h + 8 < capacity && h < 0x1000
      && Stored(h, db, entries)
    }

    constructor (h: nat, capacity: nat)
      requires HeaderSize(h) && h + 8 < capacity && h < 0x1000
      ensures Valid() && this.h == h && db == map[] && entries == map[]
    {
      this.h, this.capacity, db, entries := h, capacity, map[], map[];
    }

    /** The first occurrence of a word opens a posting with room to spare. */
    method NewPosting(doc: DocId) returns (p: UString, ghost pad: seq<byte>)
      requires Valid()
      ensures fresh(p) && fresh(p.rep) && p.Valid() && p.size == 0 && p.rep.Length == capacity
      ensures |pad| == h - 12 && Open(h, p.rep[..], [], Entry(doc, pad, []))
    {
      hide Pack, Overwrite;
      p := new UString.Empty(capacity);
      assert Area(h, []) == [];
      OpenNew(h, p.rep[..], [], doc);
      p.Poke(0, Pack(4));
      p.Poke(4, doc + Pack(0));
      pad := p.rep[..][4 + 12..4 + h];
    }

    /** Another document's last entry is closed, a new one is opened behind it. */
    method NextEntry(p: UString, off: uint32, sizeEntry: uint32, doc: DocId, ghost es: seq<Entry>)
      returns (off': uint32, ghost pad: seq<byte>)
      requires Valid() && p.Valid() && FitsPosting(h, es) && p.Contents() == Blob(h, es)
      requires off + sizeEntry == |Blob(h, es)| && |Blob(h, es)| + Growth(h) < SIZE_LIMIT
      modifies p, p.rep
      ensures p.Valid() && p.size == old(p.size) && (p.rep == old(p.rep) || fresh(p.rep))
      ensures off' == 4 + |Area(h, es)| && off' + h + 4 < p.rep.Length
      ensures |pad| == h - 12 && Open(h, p.rep[..], es, Entry(doc, pad, []))
    {
      hide Pack, Overwrite, Area;
      off' := off + sizeEntry;
      BlobTail(h, es);
      p.Poke(0, Pack(off'));
      ghost var raw1 := p.rep[..];
      PokedHead(h, es, old(p.rep[..]), raw1);
      var space := CheckCapacity(p, off', h);
      ghost var raw := p.rep[..];
      assert raw[..p.size] == raw1[..p.size] by {
        if p.rep == old(p.rep) { assert raw == raw1; }
      }
      OpenedBehind(h, raw1, raw, es, doc);
      p.Poke(off', doc + Pack(0));
      pad := p.rep[..][off' + 12..off' + h];
    }

    /** What the index says about a word. */
    ghost function Entries(w: Word): seq<Entry>
      reads this
    {
      if w in entries then entries[w] else []
    }

    /** The part of `add` for a word that has a posting already. */
    method Extend(value: seq<byte>, doc: DocId, pos: uint32, ghost es: seq<Entry>)
      returns (p: UString, ghost pad: seq<byte>)
      requires Valid() && FitsPosting(h, es) && value == Blob(h, es) && |value| + Growth(h) < SIZE_LIMIT
      ensures fresh(p) && p.Valid() && |pad| == h - 12
      ensures var r := AddEntry(es, doc, pad, pos); FitsPosting(h, r) && p.Contents() == Blob(h, r)
    {
      hide Pack, Unpack, Area, Overwrite, Open, Valid;
      pad := seq(h - 12, _ => 0);
      ghost var n := |es| - 1;
      p := new UString.Copy(value);
      ghost var raw := p.rep[..];
      BlobIsOpen(h, es);
      CopiedOpen(h, raw, es);
      OpenFrequency(h, raw, es[..n], es[n]);
      var off := Unpack(value[..4]);
      var sizeEntry := h + 4 * Unpack(value[off + 8..off + 12]);
      if value[off..off + 8] != doc {
        var off';
        off', pad := NextEntry(p, off, sizeEntry, doc, es);
        AppendPosition(h, p, off', h, pos, es, Entry(doc, pad, []));
        assert [] + [pos] == [pos];
      } else {
        AppendPosition(h, p, off, sizeEntry, pos, es[..n], es[n]);
      }
    }

    /** The part of `add` for the first document of a word. */
    method Begin(doc: DocId, pos: uint32) returns (p: UString, ghost pad: seq<byte>)
      requires Valid()
      ensures fresh(p) && p.Valid() && |pad| == h - 12
      ensures var r := AddEntry([], doc, pad, pos); FitsPosting(h, r) && p.Contents() == Blob(h, r)
    {
      hide Pack, Area, Overwrite, Open;
      p, pad := NewPosting(doc);
      EmptyArea(h);
      AppendPosition(h, p, 4, h, pos, [], Entry(doc, pad, []));
      assert [] + [pos] == [pos];
    }

    /** `add`: one more occurrence of a word in the current document. */
    method Add(word: Word, doc: DocId, pos: uint32) returns (ghost pad: seq<byte>)
      requires Valid() && (word in db ==> |db[word]| + Growth(h) < SIZE_LIMIT)
      modifies this`db, this`entries
      ensures Valid() && |pad| == h - 12
      ensures entries == old(entries)[word := AddEntry(old(Entries(word)), doc, pad, pos)]
    {
      hide Blob, FitsPosting, AddEntry;
      var p: UString;
      if word !in db {
        p, pad := Begin(doc, pos);
      } else {
        p, pad := Extend(db[word], doc, pos, entries[word]);
      }
      StoredUpdate(h, db, entries, word, p.Contents(), AddEntry(Entries(word), doc, pad, pos));
      entries := entries[word := AddEntry(Entries(word), doc, pad, pos)];
      db := db[word := p.rep[..p.size]];
    }

    /** `del`, called at entry j: an only entry takes the word with it; else the document's entry is looked for from
        there on and removed, and if there is none the call fails and changes nothing. */
    method Del(word: Word, doc: DocId, at: nat, ghost j: nat) returns (ok: bool)
      requires Valid() && word in db && j < |entries[word]| && at == OffsetOf(h, entries[word], j)
      modifies this`db, this`entries
      ensures Valid()
      ensures var es := old(entries)[word];
              var k := FirstFrom(es, doc, j);
              && ok == (|es| == 1 || k < |es|)
              && entries == if |es| == 1 then old(entries) - {word}
                            else if k < |es| then old(entries)[word := es[..k] + es[k + 1..]]
                            else old(entries)
    {
      hide Pack, Unpack, Area, EntryBytes, EntryIn, FirstFrom;
      ghost var es := entries[word];
      ghost var i := FirstFrom(es, doc, j);
      var posting, ptr := db[word], at;
      BlobEntry(h, es, j);
      EntryReads(h, posting, ptr, es[j]);
      var sizeEntry := h + 4 * Unpack(posting[ptr + 8..ptr + 12]);
      OnlyEntry(h, es, j);
      if |posting| == 4 + sizeEntry {
        db := db - {word};
        entries := entries - {word};
        return true;
      }
      ok, ptr, sizeEntry := EntryFrom(posting, doc, at, es, j);
      if !ok { return; }
      BlobEntry(h, es, i);
      posting := posting[..ptr] + posting[ptr + sizeEntry..];
      ghost var rest := es[..i] + es[i + 1..];
      DelLowersLast(h, es, i);
      CutArea(h, es, i);
      var last := LastEntryAt(posting, rest);
      posting := Pack(last) + posting[4..];
      assert posting == Blob(h, rest);
      StoredUpdate(h, db, entries, word, posting, rest);
      db := db[word := posting];
      entries := entries[word := rest];
    }

    /** The first loop of `del`: from entry j on up to the document's entry or the end. */
    method EntryFrom(posting: seq<byte>, doc: DocId, at: nat, ghost es: seq<Entry>, ghost j: nat)
      returns (ok: bool, ptr: nat, sizeEntry: nat)
      requires FitsPosting(h, es) && posting == Blob(h, es) && j < |es| && at == OffsetOf(h, es, j)
      ensures ok <==> FirstFrom(es, doc, j) < |es|
      ensures ok ==> ptr == OffsetOf(h, es, FirstFrom(es, doc, j))
      ensures ok ==> sizeEntry == h + 4 * |es[FirstFrom(es, doc, j)].positions|
    {
      hide Pack, Unpack, Area, EntryBytes, EntryIn, Blob, OffsetOf;
      ptr := at;
      ghost var k := j;
      while true
        invariant j <= k < |es| && ptr == OffsetOf(h, es, k) && FirstFrom(es, doc, k) == FirstFrom(es, doc, j)
        decreases |es| - k
      {
        BlobEntry(h, es, k);
        EntryReads(h, posting, ptr, es[k]);
        sizeEntry := h + 4 * Unpack(posting[ptr + 8..ptr + 12]);
        if posting[ptr..ptr + 8] == doc { return true, ptr, sizeEntry; }
        ptr := ptr + sizeEntry;
        k := k + 1;
        OffsetInside(h, es, k);
        if ptr >= |posting| { return false, ptr, sizeEntry; }
      }
    }

    /** The second loop of `del`: from entry to entry up to the end. */
    method LastEntryAt(posting: seq<byte>, ghost es: seq<Entry>) returns (last: uint32)
      requires HeaderSize(h) && FitsPosting(h, es) && |posting| == 4 + |Area(h, es)| && posting[4..] == Area(h, es)
      ensures last == LastOffset(h, es)
    {
      hide Pack, Unpack, Area, EntryBytes, EntryIn;
      var ptr, sizeEntry := 4, 0;
      ghost var k := 0;
      EmptyArea(h);
      assert es[..0] == [];
      while ptr < |posting|
        invariant 0 <= k <= |es| && ptr == OffsetOf(h, es, k) <= |posting|
        invariant k > 0 ==> ptr - sizeEntry == OffsetOf(h, es, k - 1)
        decreases |posting| - ptr
      {
        assert k < |es| by { assert es[..|es|] == es; }
        AreaEntry(h, es, k);
        EntryReads(h, Area(h, es), ptr - 4, es[k]);
        assert posting[4..|posting|] == Area(h, es);
        SliceSlice(posting, 4, |posting|, ptr - 4 + 8, ptr - 4 + 12);
        assert posting[ptr + 8..ptr + 12] == Area(h, es)[ptr - 4 + 8..ptr - 4 + 12];
        sizeEntry := h + 4 * Unpack(posting[ptr + 8..ptr + 12]);
        ptr := ptr + sizeEntry;
        k := k + 1;
      }
      assert k == |es| by {
        if k < |es| { AreaEntry(h, es, k); }
      }
      AreaEntry(h, es, |es| - 1);
      last := ptr - sizeEntry;
    }

    /** `substitute`: takes the document out of one word's posting, if it is there. */
    method Substitute(word: Word, doc: DocId)
      requires Valid() && word in db
      modifies this`db, this`entries
      ensures Valid()
      ensures entries == Erased(old(entries), word, doc)
    {
      hide Pack, Unpack, Area, EntryBytes, EntryIn, FitsPosting;
      ghost var es := entries[word];
      FitsParts(h, es);
      BlobTail(h, es);
      var at := FindByEntries(h, db[word][4..], doc, es);
      if at.Some? {
        FirstFromFirst(es, doc);
        var ok := Del(word, doc, at.value + 4, FirstEntry(es, doc));
        assert ok;
      }
    }

    /** The substitution pass of `setDocID`: `substitute` on every word. */
    method Erase(doc: DocId)
      requires Valid()
      modifies this`db, this`entries
      ensures Valid()
      ensures entries == ErasedAll(old(entries), doc)
    {
      hide Valid, Without;
      var todo := db.Keys;
      ghost var before := entries;
      assert todo == before.Keys by { KeysOf(); }
      while todo != {}
        invariant Valid() && Erasing(before, entries, todo, doc)
        decreases |todo|
      {
        var w :| w in todo;
        KeysOf();
        ErasingStep(before, entries, todo, doc, w);
        Substitute(w, doc);
        todo := todo - {w};
      }
    }

    lemma KeysOf()
      requires Valid()
      ensures db.Keys == entries.Keys
    {
    }
  }

  /** The words of `todo` are as before, the others have lost the document. */
  ghost predicate Erasing(before: map<Word, seq<Entry>>, now: map<Word, seq<Entry>>, todo: set<Word>, doc: DocId) {
    && todo <= now.Keys <= before.Keys
    && (forall w :: w in todo ==> now[w] == before[w])
    && (forall w :: w in before && w !in todo ==> (w in now <==> Without(before[w], doc) != []))
    && (forall w :: w in now && w !in todo ==> now[w] == Without(before[w], doc))
  }

  lemma {:induction false} ErasingStep(before: map<Word, seq<Entry>>, now: map<Word, seq<Entry>>, todo: set<Word>,
      doc: DocId, w: Word)
    requires Erasing(before, now, todo, doc) && w in todo
    ensures w in now && Erasing(before, Erased(now, w, doc), todo - {w}, doc)
  {
    hide Without;
  }

  lemma FirstFromFirst(es: seq<Entry>, doc: DocId)
    requires FirstEntry(es, doc) < |es|
    ensures FirstFrom(es, doc, FirstEntry(es, doc)) == FirstEntry(es, doc)
  {
  }

  /** The entries without the first one for doc. */
  function Without(es: seq<Entry>, doc: DocId): seq<Entry> {
    var i := FirstEntry(es, doc);
    if i < |es| then es[..i] + es[i + 1..] else es
  }

  function Erased(m: map<Word, seq<Entry>>, w: Word, doc: DocId): map<Word, seq<Entry>>
    requires w in m
  {
    if Without(m[w], doc) == [] then m - {w} else m[w := Without(m[w], doc)]
  }

  function ErasedAll(m: map<Word, seq<Entry>>, doc: DocId): map<Word, seq<Entry>> {
    map w | w in m && Without(m[w], doc) != [] :: Without(m[w], doc)
  }

  lemma FitsParts(h: nat, es: seq<Entry>)
    requires FitsPosting(h, es)
    ensures HeaderSize(h) && ValidEntries(h, es) && es != []
    ensures forall i :: 0 <= i < |es| ==> OffsetOf(h, es, i) == 4 + |Area(h, es[..i])|
  {
  }

  /** A private copy of a posting is open at its last entry, and its first word is that entry's offset. */
  lemma {:induction false} CopiedOpen(h: nat, raw: seq<byte>, es: seq<Entry>)
    requires FitsPosting(h, es) && raw == Blob(h, es)
    ensures Open(h, raw, es[..|es| - 1], es[|es| - 1]) && Unpack(raw[..4]) == LastOffset(h, es)
  {
    hide Pack, Unpack, EntryBytes;
    BlobIsOpen(h, es);
    UnpackPack(LastOffset(h, es));
    assert raw[..4] == Pack(LastOffset(h, es));
  }

  /** The size test of `isOneEntry` recognizes an only entry. */
  lemma {:induction false} OnlyEntry(h: nat, es: seq<Entry>, i: nat)
    requires FitsPosting(h, es) && i < |es|
    ensures |Blob(h, es)| == 4 + h + 4 * |es[i].positions| <==> |es| == 1
  {
    hide Pack, EntryBytes, Area;
    AreaSplit(h, es, i);
    EmptyArea(h);
    if |es| == 1 {
      assert es[..i] == [] && es[i + 1..] == [];
    } else if i > 0 {
      AreaSplit(h, es[..i], 0);
    } else {
      AreaSplit(h, es[i + 1..], 0);
    }
  }

  /** Cutting the bytes of entry i out of the posting. */
  lemma {:induction false} CutArea(h: nat, es: seq<Entry>, i: nat)
    requires FitsPosting(h, es) && i < |es| && FitsPosting(h, es[..i] + es[i + 1..])
    ensures var s, p, rest := Blob(h, es), OffsetOf(h, es, i), es[..i] + es[i + 1..];
            var q := p + h + 4 * |es[i].positions|;
            && q <= |s|
            && |s[..p] + s[q..]| == 4 + |Area(h, rest)|
            && (s[..p] + s[q..])[4..] == Area(h, rest)
  {
    hide Pack, EntryBytes, Area;
    AreaSplit(h, es, i);
    AreaConcat(h, es[..i], es[i + 1..]);
    var w, a, b, c := Pack(LastOffset(h, es)), Area(h, es[..i]), EntryBytes(h, es[i]), Area(h, es[i + 1..]);
    var s, p := Blob(h, es), OffsetOf(h, es, i);
    var q := p + |b|;
    assert s == w + a + b + c;
    assert s[..p] == w + a && s[q..] == c;
    assert (w + a + c)[4..] == a + c;
  }

  lemma {:induction false} BlobTail(h: nat, es: seq<Entry>)
    requires FitsPosting(h, es)
    ensures |Blob(h, es)| == 4 + |Area(h, es)| && Blob(h, es)[4..] == Area(h, es)
  {
  }

  lemma {:induction false} PokedHead(h: nat, es: seq<Entry>, raw: seq<byte>, raw1: seq<byte>)
    requires FitsPosting(h, es) && Blob(h, es) <= raw
    requires raw1 == Overwrite(raw, 0, Pack(4 + |Area(h, es)|))
    ensures raw1[..4] == Pack(4 + |Area(h, es)|) && raw1[4..4 + |Area(h, es)|] == Area(h, es)
  {
    hide Pack, Area;
    BlobTail(h, es);
    var m, s := 4 + |Area(h, es)|, Blob(h, es);
    assert raw[..m] == s;
    assert raw[4..m] == raw[..m][4..] == s[4..];
    assert raw1[4..m] == raw[4..m];
  }

  /** The first word may have been written before the buffer was moved. */
  lemma {:induction false} OpenedBehind(h: nat, raw1: seq<byte>, raw: seq<byte>, es: seq<Entry>, doc: DocId)
    requires HeaderSize(h) && ValidEntries(h, es) && 4 + |Area(h, es)| < SIZE_LIMIT
    requires var off := 4 + |Area(h, es)|;
             && off + h <= |raw| && off <= |raw1|
             && raw1[..4] == Pack(off) && raw1[4..off] == Area(h, es) && raw[..off] == raw1[..off]
    ensures var off := 4 + |Area(h, es)|;
            var r := Overwrite(raw, off, doc + Pack(0));
            Open(h, r, es, Entry(doc, r[off + 12..off + h], []))
  {
    hide Pack, Area;
    var off := 4 + |Area(h, es)|;
    assert raw[..4] == raw[..off][..4] && raw[4..off] == raw[..off][4..];
    assert Overwrite(raw, 0, Pack(off)) == raw;
    OpenNew(h, raw, es, doc);
  }
}
