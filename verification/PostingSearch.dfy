/** `callForCompositeWord` on the stored postings. */
module PostingSearch {
  import opened Wrappers
  import opened Words
  import opened PostingFormat
  import opened PostingFind
  import opened PostingPhrase

  /** A sub-word of the phrase and its posting as stored. */
  datatype SubWord = SubWord(size: uint32, posting: seq<byte>)

  /** A sub-word and the entries of its posting. */
  datatype Indexed = Indexed(size: uint32, es: seq<Entry>)

  /** The positions of a word in a document. */
  function Positions(es: seq<Entry>, doc: DocId): seq<uint32> {
    var i := FirstEntry(es, doc);
    if i < |es| then es[i].positions else []
  }

  /** The sub-words as they occur in one document. */
  function InDoc(parts: seq<Indexed>, doc: DocId): (ps: seq<Part>)
    ensures |ps| == |parts|
  {
    seq(|parts|, j requires 0 <= j < |parts| => Part(parts[j].size, Positions(parts[j].es, doc)))
  }

  /** The first long sub-word, which is the same for all documents. */
  function FirstLongOf(parts: seq<Indexed>, min: nat): (f: nat)
    ensures f <= |parts|
    ensures f < |parts| ==> parts[f].size >= min
    ensures forall j :: 0 <= j < f ==> parts[j].size < min
  {
    var ps := seq(|parts|, j requires 0 <= j < |parts| => Part(parts[j].size, []));
    var f := FirstLong(ps, min);
    assert forall j :: 0 <= j < f ==> ps[j].size == parts[j].size;
    f
  }

  lemma FirstLongInDoc(parts: seq<Indexed>, min: nat, doc: DocId)
    ensures FirstLong(InDoc(parts, doc), min) == FirstLongOf(parts, min)
  {
    FirstLongIs(InDoc(parts, doc), min, FirstLongOf(parts, min));
  }

  /** The stored postings of the long sub-words are those of the given entries. */
  ghost predicate Means(h: nat, min: nat, ws: seq<SubWord>, parts: seq<Indexed>) {
    && HeaderSize(h) && |ws| == |parts|
    && (forall j :: 0 <= j < |ws| ==> ws[j].size == parts[j].size)
    && (forall j :: 0 <= j < |ws| && ws[j].size >= min ==>
         FitsPosting(h, parts[j].es) && ws[j].posting == Blob(h, parts[j].es))
  }

  /** `setPosting` without the cache: the entry of the document, from the start of the posting. */
  method SetPosting(h: nat, posting: seq<byte>, doc: DocId, ghost es: seq<Entry>) returns (ptr: Option<nat>)
    requires HeaderSize(h) && FitsPosting(h, es) && posting == Blob(h, es)
    ensures var i := FirstEntry(es, doc); ptr == if i < |es| then Some(OffsetOf(h, es, i)) else None
  {
    hide Area, Pack;
    assert posting[4..] == Area(h, es);
    var at := FindByEntries(h, posting[4..], doc, es);
    ptr := if at.Some? then Some(4 + at.value) else None;
  }

  /** The loop over the positions of a sub-word: the first one within reach. */
  method NearPosition(h: nat, posting: seq<byte>, ptr: nat, prev: uint32, maxd: uint32, ghost e: Entry)
    returns (near: bool, pos: uint32)
    requires HeaderSize(h) && ValidEntry(h, e) && EntryIn(h, posting, ptr, e)
    ensures var k := FirstNear(e.positions, prev, maxd);
            near == (k < |e.positions|) && (near ==> pos == e.positions[k])
  {
    hide Unpack, EntryIn, EntryBytes, Wrap, FirstNear;
    EntryReads(h, posting, ptr, e);
    var freq := Unpack(posting[ptr + 8..ptr + 12]);
    pos := 0;
    var k: nat := 0;
    while k < freq
      invariant 0 <= k <= freq
      invariant forall i :: 0 <= i < k ==> Wrap(e.positions[i] - prev) > maxd
    {
      PositionReads(h, posting, ptr, e, k);
      pos := Unpack(posting[ptr + h + 4 * k..ptr + h + 4 * k + 4]);
      var distance := Wrap(pos - prev);
      if distance <= maxd {
        FirstNearIs(e.positions, prev, maxd, k);
        return true, pos;
      }
      k := k + 1;
    }
    FirstNearIs(e.positions, prev, maxd, k);
    return false, pos;
  }

  /** The loop over the other sub-words, for one position of the first long one. */
  method FitRest(h: nat, min: nat, maxd: uint32, ws: seq<SubWord>, doc: DocId, from: nat, start: uint32,
      ghost parts: seq<Indexed>) returns (fits: bool)
    requires Means(h, min, ws, parts) && from <= |ws|
    ensures fits == FirstFit(InDoc(parts, doc), min, maxd, from, start)
  {
    hide Wrap, Area, Blob, FitsPosting, EntryIn, FirstNear;
    var j: nat := from;
    var prev: uint32 := start;
    while j < |ws|
      invariant from <= j <= |ws|
      invariant FirstFit(InDoc(parts, doc), min, maxd, from, start) == FirstFit(InDoc(parts, doc), min, maxd, j, prev)
    {
      if ws[j].size < min {
        prev := Wrap(prev + 1 + ws[j].size);
      } else {
        ghost var es := parts[j].es;
        PartsOf(h, es);
        var ptr := SetPosting(h, ws[j].posting, doc, es);
        if ptr.None? { return false; }
        ghost var i := FirstEntry(es, doc);
        BlobEntry(h, es, i);
        var near, pos := NearPosition(h, ws[j].posting, ptr.value, prev, maxd, es[i]);
        if !near { return false; }
        prev := Wrap(pos + ws[j].size);
      }
      j := j + 1;
    }
    return true;
  }

  lemma PartsOf(h: nat, es: seq<Entry>)
    requires FitsPosting(h, es)
    ensures HeaderSize(h) && ValidEntries(h, es) && es != []
  {
  }

  /** The loop over the positions of the first long sub-word. It does not stop at a match. */
  method MatchEntry(h: nat, min: nat, maxd: uint32, ws: seq<SubWord>, f: nat, ptr: nat, doc: DocId,
      ghost parts: seq<Indexed>, ghost e: Entry) returns (found: bool)
    requires Means(h, min, ws, parts) && f < |ws| && ws[f].size >= min
    requires ValidEntry(h, e) && EntryIn(h, ws[f].posting, ptr, e)
    ensures found <==>
            exists i :: 0 <= i < |e.positions| &&
                        FirstFit(InDoc(parts, doc), min, maxd, f + 1, Wrap(e.positions[i] + parts[f].size))
  {
    hide Unpack, EntryIn, EntryBytes, Wrap, FirstFit, FitsPosting, Blob;
    EntryReads(h, ws[f].posting, ptr, e);
    var freq := Unpack(ws[f].posting[ptr + 8..ptr + 12]);
    found := false;
    for i := 0 to freq
      invariant found <==>
                exists k :: 0 <= k < i &&
                            FirstFit(InDoc(parts, doc), min, maxd, f + 1, Wrap(e.positions[k] + parts[f].size))
    {
      PositionReads(h, ws[f].posting, ptr, e, i);
      var pos := Unpack(ws[f].posting[ptr + h + 4 * i..ptr + h + 4 * i + 4]);
      var fits := FitRest(h, min, maxd, ws, doc, f + 1, Wrap(pos + ws[f].size), parts);
      if fits {
        found := true;
      }
    }
  }

  lemma FirstLongOfIs(parts: seq<Indexed>, min: nat, f: nat)
    requires f <= |parts| && (f < |parts| ==> parts[f].size >= min) && forall j :: 0 <= j < f ==> parts[j].size < min
    ensures FirstLongOf(parts, min) == f
  {
  }

  /** The loop that skips the short sub-words at the front. */
  method FindFirstLong(min: nat, ws: seq<SubWord>, ghost parts: seq<Indexed>) returns (f: nat)
    requires |ws| == |parts| && forall j :: 0 <= j < |ws| ==> ws[j].size == parts[j].size
    ensures f == FirstLongOf(parts, min)
  {
    f := 0;
    while f < |ws| && ws[f].size < min
      invariant f <= |ws| && forall j :: 0 <= j < f ==> parts[j].size < min
    {
      f := f + 1;
    }
    FirstLongOfIs(parts, min, f);
  }

  /** The search in one document (no callback). */
  method MatchDocument(h: nat, min: nat, maxd: uint32, ws: seq<SubWord>, doc: DocId, ghost parts: seq<Indexed>)
    returns (found: bool)
    requires Means(h, min, ws, parts) && FirstLongOf(parts, min) < |parts|
    ensures found == Matches(InDoc(parts, doc), min, maxd)
  {
    hide Wrap, Area, Blob, FitsPosting, EntryIn, FirstFit, FirstLong, FirstLongOf;
    var f := FindFirstLong(min, ws, parts);
    ghost var es := parts[f].es;
    FirstLongSize(parts, min);
    PartsOf(h, es);
    var ptr := SetPosting(h, ws[f].posting, doc, es);
    FirstLongInDoc(parts, min, doc);
    if ptr.None? { return false; }
    BlobEntry(h, es, FirstEntry(es, doc));
    found := MatchEntry(h, min, maxd, ws, f, ptr.value, doc, parts, es[FirstEntry(es, doc)]);
  }

  lemma FirstLongSize(parts: seq<Indexed>, min: nat)
    requires FirstLongOf(parts, min) < |parts|
    ensures parts[FirstLongOf(parts, min)].size >= min
  {
  }

  lemma MatchesAt(parts: seq<Indexed>, min: nat, maxd: uint32, doc: DocId, f: nat, ps: seq<uint32>)
    requires f == FirstLongOf(parts, min) < |parts| && ps == Positions(parts[f].es, doc)
    ensures Matches(InDoc(parts, doc), min, maxd) <==>
            exists i :: 0 <= i < |ps| && FirstFit(InDoc(parts, doc), min, maxd, f + 1, Wrap(ps[i] + parts[f].size))
  {
    hide Wrap, FirstFit, FirstLong, FirstLongOf, FirstEntry;
    FirstLongInDoc(parts, min, doc);
  }

  /** The documents of the first n entries in which the phrase is found, in their order. */
  function MatchingDocs(parts: seq<Indexed>, min: nat, maxd: uint32, es: seq<Entry>, n: nat): seq<DocId>
    requires n <= |es|
  {
    if n == 0 then [] else
    MatchingDocs(parts, min, maxd, es, n - 1) +
    if Matches(InDoc(parts, es[n - 1].doc), min, maxd) then [es[n - 1].doc] else []
  }

  /** One turn of the loop over the documents: the entry at ptr. */
  method MatchHere(h: nat, min: nat, maxd: uint32, ws: seq<SubWord>, f: nat, ptr: nat, ghost parts: seq<Indexed>,
      ghost n: nat) returns (doc: DocId, sizeEntry: nat, found: bool)
    requires Means(h, min, ws, parts) && f == FirstLongOf(parts, min) < |parts| && ws[f].size >= min
    requires var es := parts[f].es; FitsPosting(h, es) && Unique(es) && n < |es| && ptr == OffsetOf(h, es, n)
    ensures var es := parts[f].es; doc == es[n].doc && ptr + sizeEntry == OffsetOf(h, es, n + 1)
    ensures found == Matches(InDoc(parts, doc), min, maxd)
  {
    hide Wrap, Area, Blob, EntryIn, FirstFit, FirstLong, FirstLongOf, Unpack;
    var posting := ws[f].posting;
    ghost var es := parts[f].es;
    BlobEntry(h, es, n);
    EntryReads(h, posting, ptr, es[n]);
    doc := posting[ptr..ptr + 8];
    sizeEntry := h + 4 * Unpack(posting[ptr + 8..ptr + 12]);
    found := MatchEntry(h, min, maxd, ws, f, ptr, doc, parts, es[n]);
    FirstEntryIs(es, doc, n);
    assert Positions(es, doc) == es[n].positions;
    MatchesAt(parts, min, maxd, doc, f, es[n].positions);
  }

  /** The search over all documents of the first long sub-word's posting: each match calls back once, in order. */
  method MatchAll(h: nat, min: nat, maxd: uint32, ws: seq<SubWord>, ghost parts: seq<Indexed>)
    returns (docs: seq<DocId>)
    requires Means(h, min, ws, parts) && FirstLongOf(parts, min) < |parts|
    requires Unique(parts[FirstLongOf(parts, min)].es)
    ensures var es := parts[FirstLongOf(parts, min)].es; docs == MatchingDocs(parts, min, maxd, es, |es|)
  {
    hide Area, Blob, FitsPosting, FirstLong, FirstLongOf, Matches, OffsetOf, FirstEntry;
    var f := FindFirstLong(min, ws, parts);
    ghost var es := parts[f].es;
    FirstLongSize(parts, min);
    PartsOf(h, es);
    var posting, ptr := ws[f].posting, 4;
    docs := [];
    ghost var n := 0;
    StartOffset(h, es);
    while true
      invariant n < |es| && ptr == OffsetOf(h, es, n) && docs == MatchingDocs(parts, min, maxd, es, n)
      decreases |es| - n
    {
      var doc, sizeEntry, found := MatchHere(h, min, maxd, ws, f, ptr, parts, n);
      if found {
        docs := docs + [doc];
      }
      ptr := ptr + sizeEntry;
      n := n + 1;
      OffsetInside(h, es, n);
      if ptr >= |posting| {
        assert n == |es|;
        return;
      }
    }
  }

  lemma StartOffset(h: nat, es: seq<Entry>)
    requires HeaderSize(h) && ValidEntries(h, es)
    ensures OffsetOf(h, es, 0) == 4
  {
    assert es[..0] == [];
  }
}
