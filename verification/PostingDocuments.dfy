/** Indexing documents: what the words of a document leave in the index, over any number of documents. */
module PostingDocuments {
  import opened Words
  import opened PostingFormat
  import opened PostingIndex

  /** A word as the tokenizer hands it over, with its position in the document. */
  datatype Token = Token(word: Word, pos: uint32)

  /** A document, or a directory taken as one: then the content is that of its files, one behind the other. */
  datatype Document = Document(id: DocId, content: string, tokens: seq<Token>)

  /** Tokens are found in the content, one behind the other. */
  ghost predicate Tokenized(d: Document) {
    && |d.content| < TWO32
    && (forall i :: 0 <= i < |d.tokens| ==> TokenIn(d.content, d.tokens[i]))
    && (forall i, k :: 0 <= i < k < |d.tokens| ==> d.tokens[i].pos + |d.tokens[i].word| <= d.tokens[k].pos)
  }

  predicate TokenIn(content: string, t: Token) {
    t.pos + |t.word| <= |content| && content[t.pos..t.pos + |t.word|] == t.word
  }

  /** The positions of w, in order. */
  function Places(ts: seq<Token>, w: Word): (ps: seq<uint32>)
  {
    if ts == [] then [] else
    var n := |ts| - 1;
    Places(ts[..n], w) + if ts[n].word == w then [ts[n].pos] else []
  }

  lemma {:induction false} PlacesConcat(a: seq<Token>, b: seq<Token>, w: Word)
    ensures Places(a + b, w) == Places(a, w) + Places(b, w)
  {
    if b == [] {
      assert a + b == a;
    } else {
      var n := |b| - 1;
      PlacesConcat(a, b[..n], w);
      assert (a + b)[..|a + b| - 1] == a + b[..n];
    }
  }

  lemma PlacesOne(t: Token, w: Word)
    ensures Places([t], w) == if t.word == w then [t.pos] else []
  {
    assert [t][..0] == [];
  }

  /** The positions that are indexed: short words are not. */
  function Noted(ts: seq<Token>, w: Word, min: nat): seq<uint32> {
    if |w| < min then [] else Places(ts, w)
  }

  // The entries of one word

  function At(m: map<Word, seq<Entry>>, w: Word): seq<Entry> {
    if w in m then m[w] else []
  }

  ghost predicate NoEntry(es: seq<Entry>, doc: DocId) {
    forall i :: 0 <= i < |es| ==> es[i].doc != doc
  }

  /** No posting has an entry for doc. */
  ghost predicate Unknown(m: map<Word, seq<Entry>>, doc: DocId) {
    forall w :: w in m ==> NoEntry(m[w], doc)
  }

  /** es is `before` and, if there are any positions, an entry of the document with these positions behind it. */
  ghost predicate Extended(before: seq<Entry>, es: seq<Entry>, doc: DocId, ps: seq<uint32>) {
    if ps == [] then es == before
    else |es| == |before| + 1 && es[..|before|] == before && es[|before|].doc == doc && es[|before|].positions == ps
  }

  /** One more position of doc behind entries of other documents, or behind its own entry. */
  lemma {:induction false} AddExtends(before: seq<Entry>, es: seq<Entry>, doc: DocId, ps: seq<uint32>, pad: seq<byte>,
      pos: uint32)
    requires NoEntry(before, doc) && Extended(before, es, doc, ps)
    ensures Extended(before, AddEntry(es, doc, pad, pos), doc, ps + [pos])
  {
    var r := AddEntry(es, doc, pad, pos);
    assert r[..|before|] == es[..|before|] == before;
  }

  /** The index holds, behind what it held before, these tokens of the document. */
  ghost predicate Extends(before: map<Word, seq<Entry>>, now: map<Word, seq<Entry>>, doc: DocId, ts: seq<Token>,
      min: nat) {
    forall w: Word :: Extended(At(before, w), At(now, w), doc, Noted(ts, w, min))
  }

  lemma {:induction false} NotedNext(ts: seq<Token>, t: Token, w: Word, min: nat)
    ensures Noted(ts + [t], w, min) ==
            if t.word == w && |w| >= min then Noted(ts, w, min) + [t.pos] else Noted(ts, w, min)
  {
    PlacesConcat(ts, [t], w);
    PlacesOne(t, w);
  }

  lemma {:induction false} ExtendsNext(before: map<Word, seq<Entry>>, now: map<Word, seq<Entry>>, doc: DocId,
      ts: seq<Token>, min: nat, t: Token, pad: seq<byte>)
    requires Unknown(before, doc) && Extends(before, now, doc, ts, min)
    ensures |t.word| < min ==> Extends(before, now, doc, ts + [t], min)
    ensures |t.word| >= min ==>
            Extends(before, now[t.word := AddEntry(At(now, t.word), doc, pad, t.pos)], doc, ts + [t], min)
  {
    hide Extended, AddEntry, NoEntry, Noted;
    assert NoEntry(At(before, t.word), doc) by { NothingThere(doc); }
    AddExtends(At(before, t.word), At(now, t.word), doc, Noted(ts, t.word, min), pad, t.pos);
    forall w: Word ensures Noted(ts + [t], w, min) ==
                           if t.word == w && |w| >= min then Noted(ts, w, min) + [t.pos] else Noted(ts, w, min) {
      NotedNext(ts, t, w, min);
    }
  }

  lemma NothingThere(doc: DocId)
    ensures NoEntry([], doc)
  {
  }

  lemma ExtendsNothing(m: map<Word, seq<Entry>>, doc: DocId, min: nat)
    ensures Extends(m, m, doc, [], min)
  {
  }

  // Room for the tokens

  /** The size a posting has, or would have without entries. */
  function SizeAt(db: map<Word, seq<byte>>, w: Word): nat {
    if w in db then |db[w]| else 4
  }

  /** Every posting stays below its limit when these tokens are added. */
  ghost predicate Room(h: nat, db: map<Word, seq<byte>>, ts: seq<Token>, min: nat) {
    forall w: Word :: SizeAt(db, w) + |Noted(ts, w, min)| * Growth(h) < SIZE_LIMIT
  }

  lemma {:induction false} AddSize(h: nat, es: seq<Entry>, doc: DocId, pad: seq<byte>, pos: uint32)
    requires HeaderSize(h) && ValidEntries(h, es) && |pad| == h - 12
    requires FitsPosting(h, AddEntry(es, doc, pad, pos))
    ensures |Area(h, AddEntry(es, doc, pad, pos))| <= |Area(h, es)| + Growth(h)
  {
    hide EntryBytes;
    var r, n := AddEntry(es, doc, pad, pos), |es| - 1;
    if es != [] && es[n].doc == doc {
      AreaSplit(h, es, n);
      AreaSplit(h, r, n);
      assert r[..n] == es[..n] && r[n + 1..] == [] && es[n + 1..] == [];
    } else {
      AreaSplit(h, r, |es|);
      assert r[..|es|] == es && r[|es| + 1..] == [];
    }
  }

  lemma {:induction false} NotedFirst(t: Token, ts: seq<Token>, w: Word, min: nat)
    ensures Noted([t] + ts, w, min) ==
            if t.word == w && |w| >= min then [t.pos] + Noted(ts, w, min) else Noted(ts, w, min)
  {
    PlacesConcat([t], ts, w);
    PlacesOne(t, w);
  }

  /** The first of the tokens has room, and once it is added the others still have. */
  lemma {:induction false} RoomFirst(h: nat, db: map<Word, seq<byte>>, t: Token, ts: seq<Token>, min: nat)
    requires Room(h, db, [t] + ts, min)
    ensures |t.word| < min ==> Room(h, db, ts, min)
    ensures |t.word| >= min ==> SizeAt(db, t.word) + Growth(h) < SIZE_LIMIT
    ensures |t.word| >= min ==>
              forall s: seq<byte> :: |s| <= SizeAt(db, t.word) + Growth(h) ==> Room(h, db[t.word := s], ts, min)
  {
    hide Noted, SizeAt;
    var g := Growth(h);
    forall w: Word
      ensures SizeAt(db, w) + |Noted(ts, w, min)| * g + (if w == t.word && |w| >= min then g else 0) < SIZE_LIMIT
    {
      NotedFirst(t, ts, w, min);
      assert SizeAt(db, w) + |Noted([t] + ts, w, min)| * g < SIZE_LIMIT;
      assert (|Noted(ts, w, min)| + 1) * g == |Noted(ts, w, min)| * g + g;
    }
    assert |Noted(ts, t.word, min)| * g >= 0;
    forall s: seq<byte> | |t.word| >= min && |s| <= SizeAt(db, t.word) + g
      ensures Room(h, db[t.word := s], ts, min)
    {
      forall w: Word ensures SizeAt(db[t.word := s], w) <= SizeAt(db, w) + (if w == t.word then g else 0) {
        SizeUpdated(db, t.word, s, w);
      }
    }
  }

  lemma SizeUpdated(db: map<Word, seq<byte>>, v: Word, s: seq<byte>, w: Word)
    ensures SizeAt(db[v := s], w) == if w == v then |s| else SizeAt(db, w)
  {
  }

  lemma {:induction false} AddedSize(h: nat, db0: map<Word, seq<byte>>, m0: map<Word, seq<Entry>>,
      db: map<Word, seq<byte>>, m: map<Word, seq<Entry>>, w: Word, doc: DocId, pad: seq<byte>, pos: uint32)
    requires HeaderSize(h) && |pad| == h - 12 && Stored(h, db0, m0) && Stored(h, db, m)
    requires m == m0[w := AddEntry(At(m0, w), doc, pad, pos)]
    ensures w in db && |db[w]| <= SizeAt(db0, w) + Growth(h) && db == db0[w := db[w]]
  {
    assert m[w] == AddEntry(At(m0, w), doc, pad, pos);
    OneWordChanged(h, db0, m0, db, m, w);
    hide AddEntry;
    NoEntries(h);
    AddSize(h, At(m0, w), doc, pad, pos);
  }

  lemma NoEntries(h: nat)
    requires HeaderSize(h)
    ensures ValidEntries(h, []) && Area(h, []) == []
  {
  }

  lemma {:induction false} OneWordChanged(h: nat, db0: map<Word, seq<byte>>, m0: map<Word, seq<Entry>>,
      db: map<Word, seq<byte>>, m: map<Word, seq<Entry>>, w: Word)
    requires Stored(h, db0, m0) && Stored(h, db, m) && w in m && m == m0[w := m[w]]
    ensures db == db0[w := db[w]]
  {
    hide FitsPosting, Blob;
  }

  /** The loop over a document's words with `processWord` adding them: every posting gets at most one entry
      more, with exactly the positions of the word in the document. `rest` is what is to be added later. */
  method AddDocument(ix: Index, d: Document, min: nat, ghost rest: seq<Token>)
    requires ix.Valid() && Unknown(ix.entries, d.id) && Room(ix.h, ix.db, d.tokens + rest, min)
    modifies ix`db, ix`entries
    ensures ix.Valid() && Extends(old(ix.entries), ix.entries, d.id, d.tokens, min)
    ensures Room(ix.h, ix.db, rest, min)
  {
    hide AddEntry, FitsPosting, Blob, Room, Extends, Unknown, Stored;
    ghost var before := ix.entries;
    var ts := d.tokens;
    assert ts[..0] == [] && ts[0..] == ts;
    ExtendsNothing(before, d.id, min);
    for i := 0 to |ts|
      invariant ix.Valid() && Extends(before, ix.entries, d.id, ts[..i], min) && Room(ix.h, ix.db, ts[i..] + rest, min)
    {
      var t := ts[i];
      assert ts[..i + 1] == ts[..i] + [t];
      assert ts[i..] + rest == [t] + (ts[i + 1..] + rest);
      RoomFirst(ix.h, ix.db, t, ts[i + 1..] + rest, min);
      if |t.word| < min {
        ExtendsNext(before, ix.entries, d.id, ts[..i], min, t, []);
      } else {
        ghost var db0, m0 := ix.db, ix.entries;
        ghost var pad := ix.Add(t.word, d.id, t.pos);
        ExtendsNext(before, m0, d.id, ts[..i], min, t, pad);
        AddedSize(ix.h, db0, m0, ix.db, ix.entries, t.word, d.id, pad, t.pos);
      }
    }
    assert ts[..|ts|] == ts && ts[|ts|..] + rest == rest;
  }

  // Many documents

  datatype Note = Note(doc: DocId, positions: seq<uint32>)

  /** What the entries say, without the padding. */
  function Notes(es: seq<Entry>): (ns: seq<Note>)
    ensures |ns| == |es| && forall i :: 0 <= i < |es| ==> ns[i] == Note(es[i].doc, es[i].positions)
  {
    seq(|es|, i requires 0 <= i < |es| => Note(es[i].doc, es[i].positions))
  }

  /** What the index should say about a word: the documents that have it, in order, with its positions. */
  function Wanted(docs: seq<Document>, w: Word, min: nat): seq<Note> {
    if docs == [] then [] else
    var n := |docs| - 1;
    var ps := Noted(docs[n].tokens, w, min);
    Wanted(docs[..n], w, min) + if ps == [] then [] else [Note(docs[n].id, ps)]
  }

  ghost predicate Recorded(m: map<Word, seq<Entry>>, docs: seq<Document>, min: nat) {
    forall w: Word :: Notes(At(m, w)) == Wanted(docs, w, min)
  }

  ghost predicate DistinctIds(docs: seq<Document>) {
    forall i, k :: 0 <= i < k < |docs| ==> docs[i].id != docs[k].id
  }

  /** All tokens of all documents. */
  function Flat(docs: seq<Document>): seq<Token> {
    if docs == [] then [] else docs[0].tokens + Flat(docs[1..])
  }

  /** Every note is that of one of the documents. */
  lemma {:induction false} NoteOwner(docs: seq<Document>, w: Word, min: nat, i: nat) returns (k: nat)
    requires i < |Wanted(docs, w, min)|
    ensures k < |docs| && Wanted(docs, w, min)[i] == Note(docs[k].id, Noted(docs[k].tokens, w, min))
    ensures Noted(docs[k].tokens, w, min) != [] && |Wanted(docs[..k], w, min)| == i
  {
    var n := |docs| - 1;
    if i < |Wanted(docs[..n], w, min)| {
      k := NoteOwner(docs[..n], w, min, i);
      assert docs[..n][..k] == docs[..k];
    } else {
      k := n;
    }
  }

  /** Document ids stay unique when every document is indexed in one run. */
  lemma {:induction false} IndexedUnique(m: map<Word, seq<Entry>>, docs: seq<Document>, min: nat, w: Word)
    requires Recorded(m, docs, min) && DistinctIds(docs)
    ensures Unique(At(m, w))
  {
    hide Wanted, Noted;
    var es := At(m, w);
    assert Notes(es) == Wanted(docs, w, min);
    forall i, j | 0 <= i < j < |es|
      ensures es[i].doc != es[j].doc
    {
      var k := NoteOwner(docs, w, min, i);
      var l := NoteOwner(docs, w, min, j);
      assert k != l;
    }
  }

  /** A document that is not among those indexed is unknown. */
  lemma {:induction false} NewIsUnknown(m: map<Word, seq<Entry>>, docs: seq<Document>, min: nat, doc: DocId)
    requires Recorded(m, docs, min) && forall k :: 0 <= k < |docs| ==> docs[k].id != doc
    ensures Unknown(m, doc)
  {
    hide Wanted, Noted;
    forall w | w in m
      ensures NoEntry(m[w], doc)
    {
      assert Notes(At(m, w)) == Wanted(docs, w, min);
      forall i | 0 <= i < |m[w]|
        ensures m[w][i].doc != doc
      {
        var k := NoteOwner(docs, w, min, i);
        assert Notes(m[w])[i].doc == docs[k].id;
      }
    }
  }

  lemma {:induction false} IndexedNext(before: map<Word, seq<Entry>>, now: map<Word, seq<Entry>>, docs: seq<Document>,
      d: Document, min: nat)
    requires Recorded(before, docs, min) && Extends(before, now, d.id, d.tokens, min)
    ensures Recorded(now, docs + [d], min)
  {
    hide Noted, At;
    forall w: Word
      ensures Notes(At(now, w)) == Wanted(docs + [d], w, min)
    {
      var a, b, ps := At(before, w), At(now, w), Noted(d.tokens, w, min);
      assert Notes(a) == Wanted(docs, w, min) && Extended(a, b, d.id, ps);
      assert (docs + [d])[..|docs|] == docs;
      NotesExtended(a, b, d.id, ps);
    }
  }

  lemma NotesExtended(a: seq<Entry>, b: seq<Entry>, doc: DocId, ps: seq<uint32>)
    requires Extended(a, b, doc, ps)
    ensures Notes(b) == Notes(a) + if ps == [] then [] else [Note(doc, ps)]
  {
    assert ps != [] ==> forall i :: 0 <= i < |a| ==> b[i] == b[..|a|][i];
  }

  /** Indexing documents with different ids into an empty index: every posting says exactly which documents have
      the word, each once, in order, and at which positions. */
  method IndexDocuments(ix: Index, docs: seq<Document>, min: nat)
    requires ix.Valid() && ix.entries == map[] && DistinctIds(docs) && Room(ix.h, ix.db, Flat(docs), min)
    modifies ix`db, ix`entries
    ensures ix.Valid() && Recorded(ix.entries, docs, min)
  {
    hide Room, Extends, Unknown, Recorded, Index.Valid;
    assert docs[..0] == [] && docs[0..] == docs;
    NothingIndexed(min);
    for i := 0 to |docs|
      invariant ix.Valid() && Recorded(ix.entries, docs[..i], min) && Room(ix.h, ix.db, Flat(docs[i..]), min)
    {
      assert docs[i..][0] == docs[i] && docs[i..][1..] == docs[i + 1..] && docs[..i + 1] == docs[..i] + [docs[i]];
      NewIsUnknown(ix.entries, docs[..i], min, docs[i].id);
      ghost var m := ix.entries;
      AddDocument(ix, docs[i], min, Flat(docs[i + 1..]));
      IndexedNext(m, ix.entries, docs[..i], docs[i], min);
    }
    assert docs[..|docs|] == docs;
  }

  lemma NothingIndexed(min: nat)
    ensures Recorded(map[], [], min)
  {
  }
}
