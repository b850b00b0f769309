/** Indexing a new document and then erasing it leaves the index as it was, byte for byte. */
module PostingErase {
  import opened Words
  import opened PostingFormat
  import opened PostingFind
  import opened PostingIndex
  import opened PostingDocuments

  /** es is `before` with at most one more entry, for doc, behind it. */
  ghost predicate Appended(before: seq<Entry>, es: seq<Entry>, doc: DocId) {
    es == before || (|es| == |before| + 1 && es[..|before|] == before && es[|before|].doc == doc)
  }

  /** The index has grown by entries of one document only. */
  ghost predicate Grown(before: map<Word, seq<Entry>>, now: map<Word, seq<Entry>>, doc: DocId) {
    && before.Keys <= now.Keys
    && (forall w :: w in now ==> Appended(At(before, w), now[w], doc))
    && (forall w :: w in now && w !in before ==> now[w] != [])
  }

  lemma {:induction false} ExtendsGrown(h: nat, db: map<Word, seq<byte>>, before: map<Word, seq<Entry>>,
      now: map<Word, seq<Entry>>, doc: DocId, ts: seq<Token>, min: nat)
    requires Extends(before, now, doc, ts, min) && Stored(h, db, now)
    requires forall w :: w in before ==> before[w] != []
    ensures Grown(before, now, doc)
  {
    hide Noted, FitsPosting, Blob;
    StoredNotEmpty(h, db, now);
    forall w: Word
      ensures Appended(At(before, w), At(now, w), doc) && (w in before ==> w in now)
    {
      assert Extended(At(before, w), At(now, w), doc, Noted(ts, w, min));
    }
  }

  /** Taking the document out again gives the entries of before. */
  lemma {:induction false} WithoutAppended(before: seq<Entry>, es: seq<Entry>, doc: DocId)
    requires NoEntry(before, doc) && Appended(before, es, doc)
    ensures Without(es, doc) == before
  {
    if es == before {
      FirstEntryIs(es, doc, |es|);
    } else {
      assert forall i :: 0 <= i < |before| ==> es[i] == es[..|before|][i];
      FirstEntryIs(es, doc, |before|);
      assert es[|before| + 1..] == [];
    }
  }

  lemma {:induction false} ErasedBack(before: map<Word, seq<Entry>>, now: map<Word, seq<Entry>>, doc: DocId)
    requires Unknown(before, doc) && Grown(before, now, doc)
    requires forall w :: w in before ==> before[w] != []
    ensures ErasedAll(now, doc) == before
  {
    hide Without, Appended;
    forall w | w in now
      ensures Without(now[w], doc) == At(before, w)
    {
      assert NoEntry(At(before, w), doc);
      WithoutAppended(At(before, w), now[w], doc);
    }
  }

  /** The stored bytes are determined by the entries. */
  lemma {:induction false} SameEntriesSameBytes(h: nat, db0: map<Word, seq<byte>>, db: map<Word, seq<byte>>,
      m: map<Word, seq<Entry>>)
    requires Stored(h, db0, m) && Stored(h, db, m)
    ensures db == db0
  {
    hide FitsPosting, Blob;
  }

  lemma StoredNotEmpty(h: nat, db: map<Word, seq<byte>>, m: map<Word, seq<Entry>>)
    requires Stored(h, db, m)
    ensures forall w :: w in m ==> m[w] != []
  {
  }

  /** All words of a new document are added, then the document is erased: every posting has its old bytes,
      and words that were new are gone. */
  method AddThenErase(ix: Index, d: Document, min: nat)
    requires ix.Valid() && Unknown(ix.entries, d.id) && Room(ix.h, ix.db, d.tokens, min)
    modifies ix`db, ix`entries
    ensures ix.Valid() && ix.db == old(ix.db)
  {
    hide Stored, Unknown, Room, Grown, Extends;
    ghost var db0, m0 := ix.db, ix.entries;
    assert d.tokens + [] == d.tokens;
    AddDocument(ix, d, min, []);
    StoredNotEmpty(ix.h, db0, m0);
    ExtendsGrown(ix.h, ix.db, m0, ix.entries, d.id, d.tokens, min);
    ErasedBack(m0, ix.entries, d.id);
    ix.Erase(d.id);
    SameEntriesSameBytes(ix.h, db0, ix.db, m0);
  }
}
