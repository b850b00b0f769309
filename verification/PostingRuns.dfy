/** Any run of additions and erasures: the index says what the remaining documents contain, and searching finds it. */
module PostingRuns {
  import opened Words
  import opened PostingFormat
  import opened PostingFind
  import opened PostingIndex
  import opened PostingDocuments
  import opened PostingQuery

  // Erasing one document

  lemma {:induction false} WantedConcat(a: seq<Document>, b: seq<Document>, w: Word, min: nat)
    ensures Wanted(a + b, w, min) == Wanted(a, w, min) + Wanted(b, w, min)
  {
    hide Noted;
    if b == [] {
      assert a + b == a;
    } else {
      var n := |b| - 1;
      WantedConcat(a, b[..n], w, min);
      assert (a + b)[..|a + b| - 1] == a + b[..n];
    }
  }

  lemma WantedOne(d: Document, w: Word, min: nat)
    ensures Wanted([d], w, min) ==
            if Noted(d.tokens, w, min) == [] then [] else [Note(d.id, Noted(d.tokens, w, min))]
  {
    assert [d][..0] == [];
  }

  /** The notes on a word, without those of a document. */
  lemma {:induction false} NotesWithout(es: seq<Entry>, docs: seq<Document>, w: Word, min: nat, i: nat)
    requires Notes(es) == Wanted(docs, w, min) && DistinctIds(docs) && i < |docs|
    ensures Notes(Without(es, docs[i].id)) == Wanted(docs[..i] + docs[i + 1..], w, min)
  {
    hide Wanted, Noted, FirstEntry;
    var id, front, behind := docs[i].id, docs[..i], docs[i + 1..];
    assert docs == front + [docs[i]] + behind;
    WantedConcat(front + [docs[i]], behind, w, min);
    WantedConcat(front, [docs[i]], w, min);
    WantedConcat(front, behind, w, min);
    WantedOne(docs[i], w, min);
    var g := |Wanted(front, w, min)|;
    forall j | 0 <= j < |es| && es[j].doc == id
      ensures j == g && Noted(docs[i].tokens, w, min) != []
    {
      var k := NoteOwner(docs, w, min, j);
      assert Notes(es)[j].doc == id;
      assert k == i;
    }
    if Noted(docs[i].tokens, w, min) == [] {
      FirstEntryIs(es, id, |es|);
    } else {
      assert Notes(es)[g].doc == id;
      FirstEntryIs(es, id, g);
      assert Notes(es[..g] + es[g + 1..]) == Notes(es)[..g] + Notes(es)[g + 1..];
    }
  }

  lemma {:induction false} AtErased(m: map<Word, seq<Entry>>, doc: DocId, w: Word)
    ensures At(ErasedAll(m, doc), w) == Without(At(m, w), doc)
  {
    hide FirstEntry;
    if w !in m {
      FirstEntryIs([], doc, 0);
    }
  }

  /** Erasing a document leaves exactly what the other documents contain. */
  lemma {:induction false} ErasedRecorded(m: map<Word, seq<Entry>>, docs: seq<Document>, min: nat, i: nat)
    requires Recorded(m, docs, min) && DistinctIds(docs) && i < |docs|
    ensures Recorded(ErasedAll(m, docs[i].id), docs[..i] + docs[i + 1..], min)
  {
    hide Wanted, Without, ErasedAll, At, DistinctIds;
    forall w: Word
      ensures Notes(At(ErasedAll(m, docs[i].id), w)) == Wanted(docs[..i] + docs[i + 1..], w, min)
    {
      AtErased(m, docs[i].id, w);
      NotesWithout(At(m, w), docs, w, min, i);
    }
  }

  /** Erasing a document that is not there changes nothing. */
  lemma {:induction false} ErasedUnknown(m: map<Word, seq<Entry>>, docs: seq<Document>, min: nat, doc: DocId)
    requires Recorded(m, docs, min) && forall k :: 0 <= k < |docs| ==> docs[k].id != doc
    ensures Recorded(ErasedAll(m, doc), docs, min)
  {
    hide Wanted, ErasedAll, FirstEntry;
    NewIsUnknown(m, docs, min, doc);
    forall w: Word
      ensures Notes(At(ErasedAll(m, doc), w)) == Wanted(docs, w, min)
    {
      AtErased(m, doc, w);
      FirstEntryIs(At(m, w), doc, |At(m, w)|);
    }
  }

  // Runs

  /** A change of the index. A document that is substituted is erased and added again. */
  datatype Change = AddDoc(d: Document) | EraseDoc(id: DocId)

  /** Where the document is; |docs| if it is not there. */
  function IndexOf(docs: seq<Document>, id: DocId): (i: nat)
    ensures i <= |docs| && (i < |docs| ==> docs[i].id == id)
    ensures forall k :: 0 <= k < i ==> docs[k].id != id
  {
    if docs == [] then 0 else
    var i := IndexOf(docs[..|docs| - 1], id);
    if i < |docs| - 1 then i else if docs[|docs| - 1].id == id then |docs| - 1 else |docs|
  }

  /** The documents after a change. */
  function Changed(docs: seq<Document>, c: Change): seq<Document> {
    match c
    case AddDoc(d) => docs + [d]
    case EraseDoc(id) =>
      var i := IndexOf(docs, id);
      if i < |docs| then docs[..i] + docs[i + 1..] else docs
  }

  /** The documents after a run. */
  function After(cs: seq<Change>): seq<Document> {
    if cs == [] then [] else Changed(After(cs[..|cs| - 1]), cs[|cs| - 1])
  }

  /** The documents after a change: an added one is there too, an erased one is not. */
  lemma {:induction false} ChangedExactly(docs: seq<Document>, c: Change, d: Document)
    requires DistinctIds(docs)
    ensures d in Changed(docs, c) <==>
            match c
            case AddDoc(added) => d in docs || d == added
            case EraseDoc(id) => d in docs && d.id != id
  {
    hide IndexOf;
    if c.EraseDoc? {
      var i := IndexOf(docs, c.id);
      if i < |docs| {
        assert docs == docs[..i] + [docs[i]] + docs[i + 1..];
      }
    }
  }

  /** The size of a word's posting, from the documents. */
  function PostingSize(h: nat, docs: seq<Document>, w: Word, min: nat): nat {
    4 + NotesSize(h, Wanted(docs, w, min))
  }

  function NotesSize(h: nat, ns: seq<Note>): nat {
    if ns == [] then 0 else NotesSize(h, ns[..|ns| - 1]) + h + 4 * |ns[|ns| - 1].positions|
  }

  /** A document can be added: its id is new, and every posting stays below its limit. */
  ghost predicate CanAdd(h: nat, docs: seq<Document>, d: Document, min: nat) {
    && IndexOf(docs, d.id) == |docs|
    && forall w: Word :: PostingSize(h, docs, w, min) + |Noted(d.tokens, w, min)| * Growth(h) < SIZE_LIMIT
  }

  ghost predicate Possible(h: nat, cs: seq<Change>, min: nat) {
    forall k :: 0 <= k < |cs| && cs[k].AddDoc? ==> CanAdd(h, After(cs[..k]), cs[k].d, min)
  }

  lemma {:induction false} AreaSize(h: nat, es: seq<Entry>)
    requires HeaderSize(h) && ValidEntries(h, es)
    ensures |Area(h, es)| == NotesSize(h, Notes(es))
  {
    hide EntryBytes;
    if es != [] {
      var n := |es| - 1;
      AreaSize(h, es[..n]);
      assert Notes(es)[..n] == Notes(es[..n]);
    }
  }

  /** The stored size of a posting is that given by the documents. */
  lemma {:induction false} StoredSize(h: nat, db: map<Word, seq<byte>>, m: map<Word, seq<Entry>>, docs: seq<Document>,
      min: nat, w: Word)
    requires HeaderSize(h) && Stored(h, db, m) && Recorded(m, docs, min)
    ensures SizeAt(db, w) == PostingSize(h, docs, w, min)
  {
    hide Wanted, Area;
    var es := At(m, w);
    assert Notes(es) == Wanted(docs, w, min);
    if w in db {
      AreaSize(h, es);
    }
  }

  lemma {:induction false} RoomToAdd(h: nat, db: map<Word, seq<byte>>, m: map<Word, seq<Entry>>, docs: seq<Document>,
      d: Document, min: nat)
    requires HeaderSize(h) && Stored(h, db, m) && Recorded(m, docs, min) && CanAdd(h, docs, d, min)
    ensures Room(h, db, d.tokens, min)
  {
    hide Stored, Recorded, PostingSize, SizeAt, Noted, IndexOf;
    forall w: Word
      ensures SizeAt(db, w) + |Noted(d.tokens, w, min)| * Growth(h) < SIZE_LIMIT
    {
      StoredSize(h, db, m, docs, min, w);
    }
  }

  lemma {:induction false} StaysDistinct(docs: seq<Document>, c: Change)
    requires DistinctIds(docs) && (c.AddDoc? ==> IndexOf(docs, c.d.id) == |docs|)
    ensures DistinctIds(Changed(docs, c))
  {
    hide IndexOf;
  }

  /** One change of the index. */
  method Perform(ix: Index, c: Change, min: nat, ghost docs: seq<Document>)
    requires ix.Valid() && Recorded(ix.entries, docs, min) && DistinctIds(docs)
    requires c.AddDoc? ==> CanAdd(ix.h, docs, c.d, min)
    modifies ix`db, ix`entries
    ensures ix.Valid() && Recorded(ix.entries, Changed(docs, c), min) && DistinctIds(Changed(docs, c))
  {
    hide Recorded, DistinctIds, Stored, Room, Extends, Unknown, IndexOf, ErasedAll;
    ghost var m := ix.entries;
    StaysDistinct(docs, c);
    match c {
      case AddDoc(d) =>
        RoomToAdd(ix.h, ix.db, m, docs, d, min);
        NewIsUnknown(m, docs, min, d.id);
        assert d.tokens + [] == d.tokens;
        AddDocument(ix, d, min, []);
        IndexedNext(m, ix.entries, docs, d, min);
      case EraseDoc(id) =>
        ghost var i := IndexOf(docs, id);
        if i < |docs| {
          ErasedRecorded(m, docs, min, i);
        } else {
          ErasedUnknown(m, docs, min, id);
        }
        ix.Erase(id);
    }
  }

  /** Any run of additions and erasures, then a search: a quoted phrase is found in exactly the documents left that
      contain it if indexed words are longer than the distance, and a phrase that is not quoted always. */
  method RunThenSearch(ix: Index, cs: seq<Change>, phrase: seq<Word>, min: nat, maxd: uint32)
    returns (found: seq<DocId>)
    requires ix.Valid() && ix.entries == map[] && Possible(ix.h, cs, min)
    requires exists j :: 0 <= j < |phrase| && |phrase[j]| >= min
    modifies ix`db, ix`entries
    ensures found == Reported(After(cs), phrase, min, maxd)
    ensures maxd < min && (forall d :: d in After(cs) ==> Tokenized(d)) ==>
              found == Having(After(cs), phrase, min, maxd)
    ensures maxd == TWO32 - 1 ==> found == Having(After(cs), phrase, min, maxd)
  {
    hide Recorded, DistinctIds, Reported, Having, Tokenized, CanAdd, Changed, Index.Valid;
    assert cs[..0] == [];
    NothingIndexed(min);
    NoIds();
    for k := 0 to |cs|
      invariant ix.Valid() && Recorded(ix.entries, After(cs[..k]), min) && DistinctIds(After(cs[..k]))
    {
      assert cs[..k + 1][..k] == cs[..k];
      Perform(ix, cs[k], min, After(cs[..k]));
    }
    assert cs[..|cs|] == cs;
    found := Search(ix, phrase, min, maxd, After(cs));
    SearchedExactly(After(cs), phrase, min, maxd);
  }

  lemma NoIds()
    ensures DistinctIds(After([]))
  {
  }
}
