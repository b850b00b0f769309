/** The byte string that holds the postings of one word (examples/IR/posting.cpp): the offset of
    the last entry, then entries of a document id, a frequency and that many positions.
    `h` is sizeof(u_posting): 12 bytes of id and frequency, and padding up to the positions. */
module PostingFormat {
  import opened Words
  import opened Sequences

  type DocId = s: seq<byte> | |s| == 8 witness [0, 0, 0, 0, 0, 0, 0, 0]

  datatype Entry = Entry(doc: DocId, pad: seq<byte>, positions: seq<uint32>)

  predicate HeaderSize(h: nat) { h >= 12 && h % 4 == 0 }

  /** An entry with padding of the right size and a frequency that fits its word. */
  predicate Sized(h: nat, e: Entry) {
    |e.pad| == h - 12 && |e.positions| < TWO32
  }

  /** A complete entry has at least one position. */
  predicate ValidEntry(h: nat, e: Entry) {
    Sized(h, e) && e.positions != []
  }

  predicate ValidEntries(h: nat, es: seq<Entry>) {
    forall i :: 0 <= i < |es| ==> ValidEntry(h, es[i])
  }

  function WordBytes(ws: seq<uint32>): (s: seq<byte>)
    ensures |s| == 4 * |ws|
  {
    if ws == [] then [] else WordBytes(ws[..|ws| - 1]) + Pack(ws[|ws| - 1])
  }

  function EntryBytes(h: nat, e: Entry): (s: seq<byte>)
    requires HeaderSize(h) && Sized(h, e)
    ensures |s| == h + 4 * |e.positions|
  {
    e.doc + Pack(|e.positions|) + e.pad + WordBytes(e.positions)
  }

  function Area(h: nat, es: seq<Entry>): seq<byte>
    requires HeaderSize(h) && ValidEntries(h, es)
  {
    if es == [] then [] else Area(h, es[..|es| - 1]) + EntryBytes(h, es[|es| - 1])
  }

  /** Where entry i starts in the posting. */
  function OffsetOf(h: nat, es: seq<Entry>, i: nat): nat
    requires HeaderSize(h) && ValidEntries(h, es) && i <= |es|
  {
    4 + |Area(h, es[..i])|
  }

  /** The whole posting has to stay below this size, so that doubling it fits 32 bits. */
  const SIZE_LIMIT := 0x8000_0000

  predicate FitsPosting(h: nat, es: seq<Entry>) {
    HeaderSize(h) && ValidEntries(h, es) && es != [] && 4 + |Area(h, es)| < SIZE_LIMIT
  }

  function LastOffset(h: nat, es: seq<Entry>): uint32
    requires FitsPosting(h, es)
  {
    OffsetOf(h, es, |es| - 1)
  }

  /** The posting of a word whose entries are es. */
  function Blob(h: nat, es: seq<Entry>): (s: seq<byte>)
    requires FitsPosting(h, es)
    ensures |s| == 4 + |Area(h, es)|
  {
    Pack(LastOffset(h, es)) + Area(h, es)
  }

  /** A document has at most one entry. */
  ghost predicate Unique(es: seq<Entry>) {
    forall i, j :: 0 <= i < j < |es| ==> es[i].doc != es[j].doc
  }

  // Reading entries back

  lemma {:induction false} WordBytesAt(ws: seq<uint32>, k: nat)
    requires k < |ws|
    ensures WordBytes(ws)[4 * k..4 * k + 4] == Pack(ws[k])
  {
    hide Pack;
    if k < |ws| - 1 {
      WordBytesAt(ws[..|ws| - 1], k);
    }
  }

  lemma {:induction false} AreaConcat(h: nat, a: seq<Entry>, b: seq<Entry>)
    requires HeaderSize(h) && ValidEntries(h, a) && ValidEntries(h, b)
    ensures ValidEntries(h, a + b) && Area(h, a + b) == Area(h, a) + Area(h, b)
  {
    hide EntryBytes;
    if b == [] {
      assert a + b == a;
    } else {
      var n := |b| - 1;
      AreaConcat(h, a, b[..n]);
      assert a + b == a + b[..n] + [b[n]] && b == b[..n] + [b[n]];
      AreaLast(h, a + b, a + b[..n], b[n]);
      AreaLast(h, b, b[..n], b[n]);
      hide Area;
      Joined(Area(h, a), Area(h, b[..n]), EntryBytes(h, b[n]));
    }
  }

  lemma Joined(a: seq<byte>, b: seq<byte>, c: seq<byte>)
    ensures a + b + c == a + (b + c)
  {
  }

  lemma AreaLast(h: nat, es: seq<Entry>, front: seq<Entry>, e: Entry)
    requires HeaderSize(h) && ValidEntries(h, front) && ValidEntry(h, e) && es == front + [e]
    ensures ValidEntries(h, es) && Area(h, es) == Area(h, front) + EntryBytes(h, e)
  {
    hide EntryBytes;
    assert es[..|es| - 1] == front;
  }

  lemma {:induction false} AreaOne(h: nat, e: Entry)
    requires HeaderSize(h) && ValidEntry(h, e)
    ensures Area(h, [e]) == EntryBytes(h, e)
  {
    assert [e][..0] == [];
  }

  /** The posting around entry i. */
  lemma {:induction false} AreaSplit(h: nat, es: seq<Entry>, i: nat)
    requires HeaderSize(h) && ValidEntries(h, es) && i < |es|
    ensures Area(h, es) == Area(h, es[..i]) + EntryBytes(h, es[i]) + Area(h, es[i + 1..])
    ensures Area(h, es[..i + 1]) == Area(h, es[..i]) + EntryBytes(h, es[i])
  {
    hide EntryBytes;
    AreaOne(h, es[i]);
    AreaConcat(h, es[..i], [es[i]]);
    AreaConcat(h, es[..i] + [es[i]], es[i + 1..]);
    assert es[..i] + [es[i]] == es[..i + 1];
    assert es == es[..i] + [es[i]] + es[i + 1..];
  }

  /** At offset p of s there is entry e. */
  predicate EntryIn(h: nat, s: seq<byte>, p: nat, e: Entry)
    requires HeaderSize(h) && ValidEntry(h, e)
  {
    p + |EntryBytes(h, e)| <= |s| && s[p..p + |EntryBytes(h, e)|] == EntryBytes(h, e)
  }

  /** What the C code reads through a pointer to an entry. */
  lemma {:induction false} EntryReads(h: nat, s: seq<byte>, p: nat, e: Entry)
    requires HeaderSize(h) && ValidEntry(h, e) && EntryIn(h, s, p, e)
    ensures p + h + 4 * |e.positions| <= |s|
    ensures s[p..p + 8] == e.doc
    ensures s[p + 8..p + 12] == Pack(|e.positions|) && Unpack(s[p + 8..p + 12]) == |e.positions|
    ensures s[p + 12..p + h] == e.pad
  {
    hide Pack, Unpack, EntryBytes;
    var b := EntryBytes(h, e);
    UnpackPack(|e.positions|);
    EntryPieces(h, e);
    SliceSlice(s, p, p + |b|, 0, 8);
    SliceSlice(s, p, p + |b|, 8, 12);
    SliceSlice(s, p, p + |b|, 12, h);
  }

  lemma EntryPieces(h: nat, e: Entry)
    requires HeaderSize(h) && ValidEntry(h, e)
    ensures var b := EntryBytes(h, e); b[0..8] == e.doc && b[8..12] == Pack(|e.positions|) && b[12..h] == e.pad
  {
    hide Pack, WordBytes;
  }

  lemma {:induction false} PositionReads(h: nat, s: seq<byte>, p: nat, e: Entry, k: nat)
    requires HeaderSize(h) && ValidEntry(h, e) && EntryIn(h, s, p, e) && k < |e.positions|
    ensures p + h + 4 * k + 4 <= |s| && Unpack(s[p + h + 4 * k..p + h + 4 * k + 4]) == e.positions[k]
  {
    hide Pack, Unpack;
    var b, w := EntryBytes(h, e), WordBytes(e.positions);
    WordBytesAt(e.positions, k);
    UnpackPack(e.positions[k]);
    SliceSlice(s, p, p + |b|, h + 4 * k, h + 4 * k + 4);
    SliceRight(e.doc + Pack(|e.positions|) + e.pad, w, 4 * k, 4 * k + 4);
  }

  /** Entry i of a posting, counted from the posting's start. */
  lemma {:induction false} BlobEntry(h: nat, es: seq<Entry>, i: nat)
    requires FitsPosting(h, es) && i < |es|
    ensures var p := OffsetOf(h, es, i);
            && EntryIn(h, Blob(h, es), p, es[i])
            && p + h + 4 * |es[i].positions| == OffsetOf(h, es, i + 1) <= |Blob(h, es)|
  {
    hide EntryBytes, Pack, Area;
    AreaSplit(h, es, i);
    var a, b, c := Area(h, es[..i]), EntryBytes(h, es[i]), Area(h, es[i + 1..]);
    var w := Pack(LastOffset(h, es));
    assert Blob(h, es) == (w + a) + b + c;
    SliceMiddle(w + a, b, c, 0, |b|);
    assert b[0..|b|] == b;
  }

  /** The same, in the part of the posting behind its first word. */
  lemma {:induction false} AreaEntry(h: nat, es: seq<Entry>, i: nat)
    requires HeaderSize(h) && ValidEntries(h, es) && i < |es|
    ensures var p := |Area(h, es[..i])|;
            && EntryIn(h, Area(h, es), p, es[i])
            && p + h + 4 * |es[i].positions| == |Area(h, es[..i + 1])| <= |Area(h, es)|
  {
    hide EntryBytes, Area;
    AreaSplit(h, es, i);
    var a, b, c := Area(h, es[..i]), EntryBytes(h, es[i]), Area(h, es[i + 1..]);
    SliceMiddle(a, b, c, 0, |b|);
    assert b[0..|b|] == b;
  }

  /** Removing an entry moves the last one towards the front. */
  lemma {:induction false} DelLowersLast(h: nat, es: seq<Entry>, i: nat)
    requires FitsPosting(h, es) && |es| > 1 && i < |es|
    ensures FitsPosting(h, es[..i] + es[i + 1..])
    ensures LastOffset(h, es[..i] + es[i + 1..]) < LastOffset(h, es)
  {
    hide EntryBytes, Area;
    AreaSplit(h, es, i);
    var n := |es| - 1;
    var rest := es[..i] + es[i + 1..];
    AreaConcat(h, es[..i], es[i + 1..]);
    assert ValidEntries(h, rest);
    if i == n {
      assert es[i + 1..] == [] && rest == es[..n];
      AreaSplit(h, es[..n], n - 1);
      assert es[..n][..n - 1] == es[..n - 1] == rest[..|rest| - 1];
    } else {
      AreaSplit(h, es[..n], i);
      assert es[..n][..i] == es[..i];
      AreaConcat(h, es[..i], es[..n][i + 1..]);
      assert rest[..|rest| - 1] == es[..i] + es[..n][i + 1..];
    }
  }

  lemma {:induction false} OffsetInside(h: nat, es: seq<Entry>, n: nat)
    requires FitsPosting(h, es) && n <= |es|
    ensures OffsetOf(h, es, n) < |Blob(h, es)| <==> n < |es|
  {
    hide Area;
    if n < |es| {
      BlobEntry(h, es, n);
    } else {
      EndOffset(h, es);
    }
  }

  lemma EndOffset(h: nat, es: seq<Entry>)
    requires FitsPosting(h, es)
    ensures OffsetOf(h, es, |es|) == |Blob(h, es)|
  {
    assert es[..|es|] == es;
  }
}
