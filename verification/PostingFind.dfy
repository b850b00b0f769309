/** Looking for a document in a posting: entry by entry, and by searching the bytes of its id. */
module PostingFind {
  import opened Wrappers
  import opened Words
  import opened PostingFormat

  /** The first entry for doc; |es| if there is none. */
  function FirstEntry(es: seq<Entry>, doc: DocId): (i: nat)
    ensures i <= |es|
    ensures i < |es| ==> es[i].doc == doc
    ensures forall j :: 0 <= j < i ==> es[j].doc != doc
  {
    if es == [] then 0 else
    var i := FirstEntry(es[..|es| - 1], doc);
    if i < |es| - 1 then i else if es[|es| - 1].doc == doc then |es| - 1 else |es|
  }

  /** The first entry for doc from entry j on; |es| if there is none. */
  function FirstFrom(es: seq<Entry>, doc: DocId, j: nat): (k: nat)
    requires j <= |es|
    ensures j <= k <= |es| && (k < |es| ==> es[k].doc == doc)
    ensures forall x :: j <= x < k ==> es[x].doc != doc
    decreases |es| - j
  {
    if j == |es| || es[j].doc == doc then j else FirstFrom(es, doc, j + 1)
  }

  /** The offset, behind the posting's first word, at which doc should be found. */
  function Right(h: nat, es: seq<Entry>, doc: DocId): Option<nat>
    requires HeaderSize(h) && ValidEntries(h, es)
  {
    var i := FirstEntry(es, doc);
    if i < |es| then Some(|Area(h, es[..i])|) else None
  }

  lemma {:induction false} FirstEntryIs(es: seq<Entry>, doc: DocId, i: nat)
    requires i <= |es| && (i < |es| ==> es[i].doc == doc) && forall j :: 0 <= j < i ==> es[j].doc != doc
    ensures FirstEntry(es, doc) == i
  {
  }

  /** `find` without the byte search: from entry to entry. */
  method FindByEntries(h: nat, s: seq<byte>, doc: DocId, ghost es: seq<Entry>) returns (at: Option<nat>)
    requires HeaderSize(h) && ValidEntries(h, es) && es != [] && s == Area(h, es)
    ensures at == Right(h, es, doc)
  {
    hide Area, EntryBytes, Unpack, EntryIn;
    var str := 0;
    ghost var i := 0;
    assert |Area(h, es[..0])| == 0 by { EmptyArea(h); }
    while true
      invariant i < |es| && str == |Area(h, es[..i])|
      invariant forall j :: 0 <= j < i ==> es[j].doc != doc
      decreases |es| - i
    {
      AreaEntry(h, es, i);
      EntryReads(h, s, str, es[i]);
      if s[str..str + 8] == doc {
        FirstEntryIs(es, doc, i);
        return Some(str);
      }
      str := str + h + 4 * Unpack(s[str + 8..str + 12]);
      i := i + 1;
      if str >= |s| {
        assert i == |es| by {
          if i < |es| { AreaEntry(h, es, i); }
        }
        FirstEntryIs(es, doc, i);
        return None;
      }
      assert i < |es| by {
        assert es[..|es|] == es;
      }
    }
  }

  lemma EmptyArea(h: nat)
    requires HeaderSize(h)
    ensures Area(h, []) == []
  {
  }

  // The byte search

  /** The bytes of doc are at k. */
  predicate HitAt(s: seq<byte>, doc: DocId, k: nat) {
    k + 8 <= |s| && s[k..k + 8] == doc
  }

  /** `u_find`: the first hit at or behind `from`; |s| if there is none. */
  function FirstHit(s: seq<byte>, doc: DocId, from: nat): (k: nat)
    requires from <= |s|
    ensures from <= k <= |s|
    ensures k < |s| ==> HitAt(s, doc, k)
    ensures forall j :: from <= j < k ==> !HitAt(s, doc, j)
    decreases |s| - from
  {
    if from == |s| then |s| else if HitAt(s, doc, from) then from else FirstHit(s, doc, from + 1)
  }

  /** The size that an entry of this frequency would have. A header of 12 bytes is that of a 32-bit machine, where
      sizes wrap. */
  function SizeOf(h: nat, freq: uint32): (size: nat)
    ensures size <= h + 4 * freq
  {
    if h == 12 then Wrap(h + 4 * freq) else h + 4 * freq
  }

  /** `checkEntry`: aligned to the start of the search, and an entry of this size fits the rest.
      A hit in the last bytes is refused whatever follows it in memory. */
  predicate Plausible(h: nat, s: seq<byte>, base: nat, k: nat)
    requires base <= k <= |s|
  {
    (k - base) % 4 == 0 && k + 12 <= |s| && SizeOf(h, Unpack(s[k + 8..k + 12])) <= |s| - k
  }

  /** `find` with the byte search. After a refused hit the search, and the alignment, start behind it. */
  function BytesSearch(h: nat, s: seq<byte>, doc: DocId, base: nat): Option<nat>
    requires base <= |s|
    decreases |s| - base
  {
    var k := FirstHit(s, doc, base);
    if k == |s| then None
    else if Plausible(h, s, base, k) then Some(k)
    else BytesSearch(h, s, doc, k + 1)
  }

  method FindByBytes(h: nat, s: seq<byte>, doc: DocId) returns (at: Option<nat>)
    ensures at == BytesSearch(h, s, doc, 0)
  {
    hide Unpack;
    var base := 0;
    while true
      invariant 0 <= base <= |s|
      invariant BytesSearch(h, s, doc, 0) == BytesSearch(h, s, doc, base)
      decreases |s| - base
    {
      var k := FirstHit(s, doc, base);
      if k == |s| { return None; }
      if (k - base) % 4 == 0 && k + 12 <= |s| && SizeOf(h, Unpack(s[k + 8..k + 12])) <= |s| - k { return Some(k); }
      base := k + 1;
    }
  }

  /** The first hit, if there is one, is the start of an entry. */
  ghost predicate FirstHitIsEntry(h: nat, es: seq<Entry>, doc: DocId)
    requires HeaderSize(h) && ValidEntries(h, es)
  {
    var s := Area(h, es);
    var k := FirstHit(s, doc, 0);
    k < |s| ==> exists i :: 0 <= i < |es| && k == |Area(h, es[..i])|
  }

  /** The id's bytes occur nowhere but at the start of entries. */
  ghost predicate OnlyAtEntries(h: nat, es: seq<Entry>, doc: DocId)
    requires HeaderSize(h) && ValidEntries(h, es)
  {
    forall k :: 0 <= k < |Area(h, es)| && HitAt(Area(h, es), doc, k) ==>
      exists i :: 0 <= i < |es| && k == |Area(h, es[..i])|
  }

  /** Entries start at multiples of four. */
  lemma {:induction false} AreaAligned(h: nat, es: seq<Entry>)
    requires HeaderSize(h) && ValidEntries(h, es)
    ensures |Area(h, es)| % 4 == 0
  {
    hide EntryBytes;
    if es != [] {
      AreaAligned(h, es[..|es| - 1]);
    }
  }

  lemma {:induction false} AreaRises(h: nat, es: seq<Entry>, i: nat, j: nat)
    requires HeaderSize(h) && ValidEntries(h, es) && i < j <= |es|
    ensures |Area(h, es[..i])| < |Area(h, es[..j])|
    decreases j
  {
    hide Area;
    AreaEntry(h, es, j - 1);
    if i < j - 1 {
      AreaRises(h, es, i, j - 1);
    }
  }

  lemma {:induction false} EntryHit(h: nat, es: seq<Entry>, doc: DocId, i: nat)
    requires HeaderSize(h) && ValidEntries(h, es) && i < |es|
    ensures |Area(h, es[..i])| < |Area(h, es)|
    ensures HitAt(Area(h, es), doc, |Area(h, es[..i])|) <==> es[i].doc == doc
  {
    hide Area, EntryBytes, Unpack, EntryIn;
    AreaEntry(h, es, i);
    EntryReads(h, Area(h, es), |Area(h, es[..i])|, es[i]);
  }

  /** If the first hit is an entry, both ways of finding agree. */
  lemma {:induction false} FindsAgree(h: nat, es: seq<Entry>, doc: DocId)
    requires HeaderSize(h) && ValidEntries(h, es) && FirstHitIsEntry(h, es, doc)
    ensures BytesSearch(h, Area(h, es), doc, 0) == Right(h, es, doc)
  {
    hide Area, HitAt, Plausible, BytesSearch;
    var s := Area(h, es);
    var k := FirstHit(s, doc, 0);
    BaseStart(s, doc);
    BaseStays(s, doc, 0, k);
    var n := |es|;
    if k < |s| {
      n :| 0 <= n < |es| && k == |Area(h, es[..n])|;
      EntryHit(h, es, doc, n);
    }
    forall j | 0 <= j < n
      ensures es[j].doc != doc
    {
      EntryHit(h, es, doc, j);
      if n < |es| { AreaRises(h, es, j, n); }
    }
    FirstEntryIs(es, doc, n);
    FindsAgreeExactly(h, es, doc);
  }

  /** In particular they agree if the id occurs nowhere else. */
  lemma {:induction false} OnlyAtEntriesSuffices(h: nat, es: seq<Entry>, doc: DocId)
    requires HeaderSize(h) && ValidEntries(h, es) && OnlyAtEntries(h, es, doc)
    ensures BytesSearch(h, Area(h, es), doc, 0) == Right(h, es, doc)
  {
    FindsAgree(h, es, doc);
  }

  lemma {:induction false} FirstHitIs(s: seq<byte>, doc: DocId, from: nat, k: nat)
    requires from <= k <= |s| && (k < |s| ==> HitAt(s, doc, k))
    requires forall j :: from <= j < k ==> !HitAt(s, doc, j)
    ensures FirstHit(s, doc, from) == k
  {
  }

  // What the byte search finds on every posting

  /** Where the alignment is counted from at k: behind the last hit in front of k. */
  function Base(s: seq<byte>, doc: DocId, k: nat): (base: nat)
    ensures base <= k
  {
    if k == 0 then 0 else if HitAt(s, doc, k - 1) then k else Base(s, doc, k - 1)
  }

  /** The search would stop at k. */
  predicate Accepted(h: nat, s: seq<byte>, doc: DocId, k: nat)
    requires k <= |s|
  {
    HitAt(s, doc, k) && Plausible(h, s, Base(s, doc, k), k)
  }

  /** The base is the start of the posting, or the place behind the last hit in front of k. */
  lemma {:induction false} BaseExactly(s: seq<byte>, doc: DocId, k: nat)
    ensures var b := Base(s, doc, k);
            && (b == 0 || HitAt(s, doc, b - 1))
            && forall j :: b <= j < k ==> !HitAt(s, doc, j)
  {
    hide HitAt;
    if k > 0 && !HitAt(s, doc, k - 1) {
      BaseExactly(s, doc, k - 1);
    }
  }

  /** When the search stops, in plain numbers: the id is there, the place is a multiple of four bytes behind the base,
      and an entry with the frequency found there would end inside the posting. */
  lemma {:induction false} AcceptedExactly(h: nat, s: seq<byte>, doc: DocId, k: nat)
    requires k <= |s|
    ensures Accepted(h, s, doc, k) <==>
            && k + 12 <= |s| && s[k..k + 8] == doc && (k - Base(s, doc, k)) % 4 == 0
            && var low, high := s[k + 8] as int + 256 * s[k + 9] as int, s[k + 10] as int + 256 * s[k + 11] as int;
               var freq := low + 65536 * high;
               (if h == 12 then (12 + 4 * freq) % 0x1_0000_0000 else h + 4 * freq) <= |s| - k
  {
    hide Base;
    if k + 12 <= |s| {
      var t := s[k + 8..k + 12];
      assert t[0] == s[k + 8] && t[1] == s[k + 9] && t[2] == s[k + 10] && t[3] == s[k + 11];
    }
  }

  lemma {:induction false} BaseStays(s: seq<byte>, doc: DocId, base: nat, k: nat)
    requires base <= k && Base(s, doc, base) == base && forall j :: base <= j < k ==> !HitAt(s, doc, j)
    ensures Base(s, doc, k) == base
  {
    if base < k {
      BaseStays(s, doc, base, k - 1);
    }
  }

  /** The search stops at the first accepted hit. */
  lemma {:induction false} SearchStops(h: nat, s: seq<byte>, doc: DocId, base: nat)
    requires base <= |s| && Base(s, doc, base) == base
    ensures match BytesSearch(h, s, doc, base)
            case Some(k) =>
              base <= k < |s| && Accepted(h, s, doc, k) && forall j :: base <= j < k ==> !Accepted(h, s, doc, j)
            case None => forall j :: base <= j < |s| ==> !Accepted(h, s, doc, j)
    decreases |s| - base
  {
    hide HitAt, Plausible;
    var k := FirstHit(s, doc, base);
    if k < |s| {
      BaseStays(s, doc, base, k);
      if !Plausible(h, s, base, k) {
        SearchStops(h, s, doc, k + 1);
      }
    }
  }

  /** Where an entry of doc is, or the end of the posting. */
  function Target(h: nat, es: seq<Entry>, doc: DocId): nat
    requires HeaderSize(h) && ValidEntries(h, es)
  {
    var i := FirstEntry(es, doc);
    if i < |es| then |Area(h, es[..i])| else |Area(h, es)|
  }

  /** Both ways of finding agree on a posting exactly if no hit in front of the entry is accepted
      and the last hit in front of it leaves the alignment as it was. */
  lemma {:induction false} FindsAgreeExactly(h: nat, es: seq<Entry>, doc: DocId)
    requires HeaderSize(h) && ValidEntries(h, es)
    ensures Target(h, es, doc) <= |Area(h, es)|
    ensures BytesSearch(h, Area(h, es), doc, 0) == Right(h, es, doc) <==>
            && (forall j :: 0 <= j < Target(h, es, doc) ==> !Accepted(h, Area(h, es), doc, j))
            && (FirstEntry(es, doc) < |es| ==> Base(Area(h, es), doc, Target(h, es, doc)) % 4 == 0)
  {
    hide Area, EntryBytes, Unpack, EntryIn, BytesSearch, Base;
    var s := Area(h, es);
    var i := FirstEntry(es, doc);
    assert Base(s, doc, 0) == 0 by { BaseStart(s, doc); }
    SearchStops(h, s, doc, 0);
    if i < |es| {
      var k := |Area(h, es[..i])|;
      AreaEntry(h, es, i);
      EntryReads(h, s, k, es[i]);
      AreaAligned(h, es[..i]);
      assert Accepted(h, s, doc, k) <==> Base(s, doc, k) % 4 == 0;
    }
  }

  lemma BaseStart(s: seq<byte>, doc: DocId)
    ensures Base(s, doc, 0) == 0
  {
  }

  // A posting on which they do not agree

  /** Document ids are negated inode numbers: these are the documents with the inodes 11, 12 and 12 * 65536. */
  const ID11: DocId := [245, 255, 255, 255, 255, 255, 255, 255]
  const ID12: DocId := [244, 255, 255, 255, 255, 255, 255, 255]
  const DOC: DocId := [0, 0, 244, 255, 255, 255, 255, 255]

  const PAD: seq<byte> := [0, 0, 0, 0]

  /** The last bytes of a position and the first ones of an id are an id as well. */
  const SPLIT := [Entry(ID11, PAD, [3]), Entry(ID12, PAD, [5]), Entry(DOC, PAD, [9])]

  const BYTES0: seq<byte> := [245, 255, 255, 255, 255, 255, 255, 255, 1, 0, 0, 0, 0, 0, 0, 0, 3, 0, 0, 0]
  const BYTES1: seq<byte> := [244, 255, 255, 255, 255, 255, 255, 255, 1, 0, 0, 0, 0, 0, 0, 0, 5, 0, 0, 0]
  const BYTES2: seq<byte> := [0, 0, 244, 255, 255, 255, 255, 255, 1, 0, 0, 0, 0, 0, 0, 0, 9, 0, 0, 0]
  const SPLIT_BYTES := BYTES0 + BYTES1 + BYTES2

  /** Without the condition the byte search can miss an entry: the refused hit has moved the base of the alignment. */
  lemma {:induction false} MissedEntry()
    ensures ValidEntries(16, SPLIT) && Right(16, SPLIT, DOC) == Some(40)
    ensures BytesSearch(16, Area(16, SPLIT), DOC, 0) == None
  {
    hide BytesSearch, Area;
    SplitArea();
    FirstEntryIs(SPLIT, DOC, 2);
    SplitSearch();
  }

  lemma {:induction false} SplitArea()
    ensures ValidEntries(16, SPLIT) && Area(16, SPLIT) == SPLIT_BYTES && |Area(16, SPLIT[..2])| == 40
  {
    hide EntryBytes, Area, Pack;
    var e0, e1, e2 := SPLIT[0], SPLIT[1], SPLIT[2];
    EntryOfWord(ID11, 3);
    EntryOfWord(ID12, 5);
    EntryOfWord(DOC, 9);
    SplitWords();
    AreaOne(16, e0);
    AreaOne(16, e1);
    AreaOne(16, e2);
    AreaConcat(16, [e0], [e1]);
    AreaConcat(16, [e0] + [e1], [e2]);
    assert SPLIT == [e0] + [e1] + [e2] && SPLIT[..2] == [e0] + [e1];
    assert EntryBytes(16, e0) == BYTES0 && EntryBytes(16, e1) == BYTES1 && EntryBytes(16, e2) == BYTES2;
  }

  lemma SplitWords()
    ensures Pack(1) == [1, 0, 0, 0] && Pack(3) == [3, 0, 0, 0] && Pack(5) == [5, 0, 0, 0] && Pack(9) == [9, 0, 0, 0]
  {
    PackIs(1);
    PackIs(3);
    PackIs(5);
    PackIs(9);
  }

  lemma EntryOfWord(doc: DocId, a: uint32)
    ensures EntryBytes(16, Entry(doc, PAD, [a])) == doc + Pack(1) + PAD + Pack(a)
  {
    hide Pack;
    assert [a][..0] == [];
    assert WordBytes([a]) == Pack(a);
  }

  lemma Only244(k: nat)
    requires k < 60
    ensures SPLIT_BYTES[k] == 244 ==> k == 20 || k == 42
  {
    assert SPLIT_BYTES[k] == if k < 20 then BYTES0[k] else if k < 40 then BYTES1[k - 20] else BYTES2[k - 40];
  }

  lemma HitsAre()
    ensures SPLIT_BYTES[18..26] == DOC && SPLIT_BYTES[40..48] == DOC
  {
    var t, u := SPLIT_BYTES[18..26], SPLIT_BYTES[40..48];
    assert t == [BYTES0[18], BYTES0[19], BYTES1[0], BYTES1[1], BYTES1[2], BYTES1[3], BYTES1[4], BYTES1[5]];
    assert u == [BYTES2[0], BYTES2[1], BYTES2[2], BYTES2[3], BYTES2[4], BYTES2[5], BYTES2[6], BYTES2[7]];
  }

  /** The bytes of the id lie at 18 and at 40 only. */
  lemma {:induction false} SplitHits(j: nat)
    requires j < 60
    ensures HitAt(SPLIT_BYTES, DOC, j) <==> j == 18 || j == 40
  {
    var s := SPLIT_BYTES;
    if j == 18 {
      HitsAre();
    } else if j == 40 {
      HitsAre();
    } else if j + 8 <= 60 {
      Only244(j + 2);
      assert s[j..j + 8][2] == s[j + 2];
    }
  }

  lemma {:induction false} SplitSearch()
    ensures BytesSearch(16, SPLIT_BYTES, DOC, 0) == None
  {
    hide Unpack, HitAt;
    var s := SPLIT_BYTES;
    forall j: nat | j < 60
      ensures HitAt(s, DOC, j) <==> j == 18 || j == 40
    {
      SplitHits(j);
    }
    FirstHitIs(s, DOC, 0, 18);
    FirstHitIs(s, DOC, 19, 40);
    FirstHitIs(s, DOC, 41, 60);
    assert BytesSearch(16, s, DOC, 41) == None;
    assert BytesSearch(16, s, DOC, 19) == None;
  }
}
