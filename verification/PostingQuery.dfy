/** Phrase search over the documents indexed: what is found is what they contain. */
module PostingQuery {
  import opened Words
  import opened PostingFormat
  import opened PostingFind
  import opened PostingIndex
  import opened PostingDocuments
  import opened PostingPhrase
  import opened PostingSearch

  /** The sub-words of a phrase with their positions in a document. */
  function PartsIn(d: Document, phrase: seq<Word>, min: nat): (ps: seq<Part>)
    ensures |ps| == |phrase|
  {
    seq(|phrase|, j requires 0 <= j < |phrase| => Part(|phrase[j]|, Noted(d.tokens, phrase[j], min)))
  }

  /** The documents that the search reports, in the order they were indexed. */
  ghost function Reported(docs: seq<Document>, phrase: seq<Word>, min: nat, maxd: uint32): seq<DocId> {
    if docs == [] then [] else
    var n := |docs| - 1;
    Reported(docs[..n], phrase, min, maxd) +
    if Matches(PartsIn(docs[n], phrase, min), min, maxd) then [docs[n].id] else []
  }

  /** The documents that contain the phrase, in the order they were indexed. */
  ghost function Having(docs: seq<Document>, phrase: seq<Word>, min: nat, maxd: uint32): seq<DocId> {
    if docs == [] then [] else
    var n := |docs| - 1;
    Having(docs[..n], phrase, min, maxd) +
    if Occurs(PartsIn(docs[n], phrase, min), min, maxd) then [docs[n].id] else []
  }

  // Tokens do not overlap, so long words are spaced

  ghost predicate InOrder(ts: seq<Token>) {
    forall i, k :: 0 <= i < k < |ts| ==> ts[i].pos + |ts[i].word| <= ts[k].pos
  }

  lemma {:induction false} PlaceOwner(ts: seq<Token>, w: Word, i: nat) returns (k: nat)
    requires i < |Places(ts, w)|
    ensures k < |ts| && ts[k] == Token(w, Places(ts, w)[i])
  {
    var n := |ts| - 1;
    if i < |Places(ts[..n], w)| {
      k := PlaceOwner(ts[..n], w, i);
    } else {
      k := n;
    }
  }

  lemma {:induction false} PlacesApart(ts: seq<Token>, w: Word, i: nat, k: nat)
    requires InOrder(ts) && i < k < |Places(ts, w)|
    ensures Places(ts, w)[i] + |w| <= Places(ts, w)[k]
  {
    var n := |ts| - 1;
    if k < |Places(ts[..n], w)| {
      PlacesApart(ts[..n], w, i, k);
    } else {
      var j := PlaceOwner(ts[..n], w, i);
      assert ts[j] == ts[..n][j];
    }
  }

  /** Occurrences of a word longer than the distance are spaced. */
  lemma {:induction false} LongWordSpaced(d: Document, w: Word, maxd: uint32)
    requires Tokenized(d) && maxd < |w|
    ensures Spaced(Places(d.tokens, w), maxd)
  {
    hide Places;
    var ps := Places(d.tokens, w);
    assert InOrder(d.tokens);
    forall i, k | 0 <= i < k < |ps|
      ensures Apart(ps[i], ps[k], maxd)
    {
      PlacesApart(d.tokens, w, i, k);
      var j := PlaceOwner(d.tokens, w, k);
      assert TokenIn(d.content, d.tokens[j]);
    }
  }

  /** If all indexed words are longer than the distance, a quoted phrase is found in every document that contains it. */
  lemma {:induction false} QuotedExact(d: Document, phrase: seq<Word>, min: nat, maxd: uint32)
    requires Tokenized(d) && maxd < min
    ensures Exact(PartsIn(d, phrase, min), min, maxd)
  {
    hide Exact, Places, Tokenized, Spaced;
    var parts := PartsIn(d, phrase, min);
    forall j: nat | Inner(parts, min, j)
      ensures Spaced(parts[j].ps, maxd)
    {
      LongWordSpaced(d, phrase[j], maxd);
    }
    SearchExact(parts, min, maxd);
  }

  // A phrase that is there word for word

  /** Where word j of the phrase is if the phrase is at p with one byte between its words. */
  function PlaceAt(phrase: seq<Word>, p: nat, j: nat): nat
    requires j <= |phrase|
  {
    if j == 0 then p else PlaceAt(phrase, p, j - 1) + |phrase[j - 1]| + 1
  }

  /** The document has the long words of the phrase at these places. */
  ghost predicate Literal(d: Document, phrase: seq<Word>, min: nat, p: nat) {
    && PlaceAt(phrase, p, |phrase|) < TWO32
    && forall j :: 0 <= j < |phrase| && |phrase[j]| >= min ==>
         exists t :: t in d.tokens && t.word == phrase[j] && t.pos == PlaceAt(phrase, p, j)
  }

  lemma {:induction false} PlacesHave(ts: seq<Token>, t: Token)
    requires t in ts
    ensures t.pos in Places(ts, t.word)
  {
    var n := |ts| - 1;
    if t == ts[n] {
      assert Places(ts, t.word)[|Places(ts[..n], t.word)|] == t.pos;
    } else {
      assert ts == ts[..n] + [ts[n]];
      PlacesHave(ts[..n], t);
      assert t.pos in Places(ts[..n], t.word);
    }
  }

  lemma {:induction false} PlaceRises(phrase: seq<Word>, p: nat, j: nat, k: nat)
    requires j <= k <= |phrase|
    ensures PlaceAt(phrase, p, j) <= PlaceAt(phrase, p, k)
    decreases k
  {
    if j < k {
      PlaceRises(phrase, p, j, k - 1);
    }
  }

  lemma {:induction false} LiteralChain(d: Document, phrase: seq<Word>, min: nat, maxd: uint32, p: nat, j: nat)
    requires Literal(d, phrase, min, p) && 1 <= maxd && 0 < j <= |phrase|
    ensures PlaceAt(phrase, p, j) - 1 < TWO32
    ensures Chain(PartsIn(d, phrase, min), min, maxd, j, PlaceAt(phrase, p, j) - 1)
    decreases |phrase| - j
  {
    hide Places, Wrap;
    var parts := PartsIn(d, phrase, min);
    PlaceRises(phrase, p, j, |phrase|);
    if j < |phrase| {
      PlaceRises(phrase, p, j + 1, |phrase|);
      LiteralChain(d, phrase, min, maxd, p, j + 1);
      var at := PlaceAt(phrase, p, j);
      WrapSmall(PlaceAt(phrase, p, j + 1) - 1);
      WrapSmall(1);
      if |phrase[j]| >= min {
        var t :| t in d.tokens && t.word == phrase[j] && t.pos == at;
        PlacesHave(d.tokens, t);
        assert at in parts[j].ps && at - (at - 1) == 1;
      }
    }
  }

  /** A phrase that stands in the document word for word, its words one byte apart, occurs for any distance; whatever
      short words it has. */
  lemma {:induction false} LiteralOccurs(d: Document, phrase: seq<Word>, min: nat, maxd: uint32, p: nat)
    requires Literal(d, phrase, min, p) && 1 <= maxd
    requires exists j :: 0 <= j < |phrase| && |phrase[j]| >= min
    ensures Occurs(PartsIn(d, phrase, min), min, maxd)
  {
    hide Places, Wrap, FirstLong, Chain;
    var parts := PartsIn(d, phrase, min);
    var j :| 0 <= j < |phrase| && |phrase[j]| >= min;
    assert parts[j].size >= min;
    var f := FirstLong(parts, min);
    var t :| t in d.tokens && t.word == phrase[f] && t.pos == PlaceAt(phrase, p, f);
    PlacesHave(d.tokens, t);
    LiteralChain(d, phrase, min, maxd, p, f + 1);
    WrapSmall(PlaceAt(phrase, p, f + 1) - 1);
    assert t.pos in parts[f].ps;
  }

  lemma {:induction false} ReportedExactly(docs: seq<Document>, phrase: seq<Word>, min: nat, maxd: uint32)
    requires forall d :: d in docs ==> Exact(PartsIn(d, phrase, min), min, maxd)
    ensures Reported(docs, phrase, min, maxd) == Having(docs, phrase, min, maxd)
  {
    hide Matches, Occurs, PartsIn;
    if docs != [] {
      var n := |docs| - 1;
      assert docs[n] in docs;
      ReportedExactly(docs[..n], phrase, min, maxd);
    }
  }

  // The stored positions of a document's words

  lemma {:induction false} NoteThere(docs: seq<Document>, w: Word, min: nat, i: nat)
    requires i < |docs| && Noted(docs[i].tokens, w, min) != []
    ensures var k := |Wanted(docs[..i], w, min)|;
            k < |Wanted(docs, w, min)| && Wanted(docs, w, min)[k] == Note(docs[i].id, Noted(docs[i].tokens, w, min))
  {
    hide Noted;
    var n := |docs| - 1;
    if i < n {
      NoteThere(docs[..n], w, min, i);
      assert docs[..n][..i] == docs[..i];
    }
  }

  lemma {:induction false} PositionsAre(m: map<Word, seq<Entry>>, docs: seq<Document>, min: nat, w: Word, i: nat)
    requires Recorded(m, docs, min) && DistinctIds(docs) && i < |docs|
    ensures Positions(At(m, w), docs[i].id) == Noted(docs[i].tokens, w, min)
  {
    hide Wanted, Noted, FirstEntry;
    var es, id := At(m, w), docs[i].id;
    assert Notes(es) == Wanted(docs, w, min);
    var k := FirstEntry(es, id);
    if k < |es| {
      var l := NoteOwner(docs, w, min, k);
      assert Notes(es)[k].doc == id;
      assert l == i;
    } else if Noted(docs[i].tokens, w, min) != [] {
      NoteThere(docs, w, min, i);
      assert false;
    }
  }

  function IndexedParts(m: map<Word, seq<Entry>>, phrase: seq<Word>, min: nat): (ps: seq<Indexed>)
    ensures |ps| == |phrase|
  {
    seq(|phrase|, j requires 0 <= j < |phrase| =>
      Indexed(|phrase[j]|, if |phrase[j]| < min then [] else At(m, phrase[j])))
  }

  lemma {:induction false} PartsInDoc(m: map<Word, seq<Entry>>, docs: seq<Document>, min: nat, phrase: seq<Word>,
      i: nat)
    requires Recorded(m, docs, min) && DistinctIds(docs) && i < |docs|
    ensures InDoc(IndexedParts(m, phrase, min), docs[i].id) == PartsIn(docs[i], phrase, min)
  {
    hide Recorded, DistinctIds;
    forall j | 0 <= j < |phrase|
      ensures InDoc(IndexedParts(m, phrase, min), docs[i].id)[j] == PartsIn(docs[i], phrase, min)[j]
    {
      PositionsAre(m, docs, min, phrase[j], i);
    }
  }

  /** A document without one of the long sub-words is not reported. */
  lemma {:induction false} AbsentNotReported(parts: seq<Part>, min: nat, maxd: uint32, j: nat)
    requires j < |parts| && parts[j].size >= min && parts[j].ps == []
    ensures !Matches(parts, min, maxd)
  {
    hide Matches, FirstLong, Chain, Exact;
    if Matches(parts, min, maxd) {
      SearchExact(parts, min, maxd);
      var f := FirstLong(parts, min);
      var p :| p in parts[f].ps && Chain(parts, min, maxd, f + 1, Wrap(p + parts[f].size));
      ChainPresent(parts, min, maxd, f + 1, Wrap(p + parts[f].size));
    }
  }

  /** Going through the entries of the first long sub-word is going through the documents. */
  lemma {:induction false} EntriesAreDocuments(m: map<Word, seq<Entry>>, docs: seq<Document>, min: nat, maxd: uint32,
      phrase: seq<Word>, f: nat, i: nat)
    requires Recorded(m, docs, min) && DistinctIds(docs) && i <= |docs| && f < |phrase| && |phrase[f]| >= min
    ensures var g := |Wanted(docs[..i], phrase[f], min)|;
            && g <= |At(m, phrase[f])|
            && MatchingDocs(IndexedParts(m, phrase, min), min, maxd, At(m, phrase[f]), g) ==
                 Reported(docs[..i], phrase, min, maxd)
  {
    hide Matches, IndexedParts, PartsIn, Noted, Recorded, DistinctIds;
    if i > 0 {
      var w := phrase[f];
      EntriesAreDocuments(m, docs, min, maxd, phrase, f, i - 1);
      assert docs[..i][..i - 1] == docs[..i - 1];
      PartsInDoc(m, docs, min, phrase, i - 1);
      if Noted(docs[i - 1].tokens, w, min) == [] {
        FirstHasNone(docs[i - 1], phrase, min, maxd, f);
      } else {
        EntryOfDocument(m, docs, min, w, i - 1);
      }
    }
  }

  lemma FirstHasNone(d: Document, phrase: seq<Word>, min: nat, maxd: uint32, f: nat)
    requires f < |phrase| && |phrase[f]| >= min && Noted(d.tokens, phrase[f], min) == []
    ensures !Matches(PartsIn(d, phrase, min), min, maxd)
  {
    hide Matches;
    AbsentNotReported(PartsIn(d, phrase, min), min, maxd, f);
  }

  lemma {:induction false} EntryOfDocument(m: map<Word, seq<Entry>>, docs: seq<Document>, min: nat, w: Word, i: nat)
    requires Recorded(m, docs, min) && i < |docs| && Noted(docs[i].tokens, w, min) != []
    ensures var g := |Wanted(docs[..i], w, min)|;
            |Wanted(docs[..i + 1], w, min)| == g + 1 && g < |At(m, w)| && At(m, w)[g].doc == docs[i].id
  {
    hide Noted;
    assert Notes(At(m, w)) == Wanted(docs, w, min);
    NoteThere(docs, w, min, i);
    assert docs[..i + 1][..i] == docs[..i];
  }

  lemma {:induction false} MissingWord(m: map<Word, seq<Entry>>, docs: seq<Document>, min: nat, maxd: uint32,
      phrase: seq<Word>, j: nat, i: nat)
    requires Recorded(m, docs, min) && i <= |docs| && j < |phrase| && |phrase[j]| >= min && At(m, phrase[j]) == []
    ensures Reported(docs[..i], phrase, min, maxd) == []
  {
    hide Matches, PartsIn, Noted;
    if i > 0 {
      MissingWord(m, docs, min, maxd, phrase, j, i - 1);
      assert docs[..i][..i - 1] == docs[..i - 1];
      if Noted(docs[i - 1].tokens, phrase[j], min) != [] {
        EntryOfDocument(m, docs, min, phrase[j], i - 1);
        assert false;
      }
      FirstHasNone(docs[i - 1], phrase, min, maxd, j);
    }
  }

  /** `setVectorCompositeWord`: the postings of the long sub-words, unless one of them has none. */
  method ReadPostings(ix: Index, phrase: seq<Word>, min: nat) returns (ok: bool, ws: seq<SubWord>)
    requires ix.Valid()
    ensures ok ==> Means(ix.h, min, ws, IndexedParts(ix.entries, phrase, min))
    ensures !ok ==> exists j :: 0 <= j < |phrase| && |phrase[j]| >= min && At(ix.entries, phrase[j]) == []
  {
    hide FitsPosting, Blob;
    ws := [];
    for j := 0 to |phrase|
      invariant |ws| == j
      invariant forall k :: 0 <= k < j ==> ws[k].size == |phrase[k]|
      invariant forall k :: 0 <= k < j && |phrase[k]| >= min ==> phrase[k] in ix.db && ws[k].posting == ix.db[phrase[k]]
    {
      var w := phrase[j];
      if |w| < min {
        ws := ws + [SubWord(|w|, [])];
      } else {
        if w !in ix.db { return false, []; }
        ws := ws + [SubWord(|w|, ix.db[w])];
      }
    }
    return true, ws;
  }

  /** The search as a whole: exactly the documents that first fit reports, each once, in order. */
  method Search(ix: Index, phrase: seq<Word>, min: nat, maxd: uint32, ghost docs: seq<Document>)
    returns (found: seq<DocId>)
    requires ix.Valid() && Recorded(ix.entries, docs, min) && DistinctIds(docs)
    requires exists j :: 0 <= j < |phrase| && |phrase[j]| >= min
    ensures found == Reported(docs, phrase, min, maxd)
  {
    hide Index.Valid, Recorded, DistinctIds, Reported, Wanted, MatchingDocs, FirstLongOf, Unique, At;
    ghost var m := ix.entries;
    ghost var parts := IndexedParts(m, phrase, min);
    assert docs[..|docs|] == docs;
    var ok, ws := ReadPostings(ix, phrase, min);
    if !ok {
      ghost var j :| 0 <= j < |phrase| && |phrase[j]| >= min && At(m, phrase[j]) == [];
      MissingWord(m, docs, min, maxd, phrase, j, |docs|);
      return [];
    }
    ghost var f := FirstLongOf(parts, min);
    assert f < |parts| by {
      var j :| 0 <= j < |phrase| && |phrase[j]| >= min;
      assert parts[j].size >= min;
    }
    IndexedUnique(m, docs, min, phrase[f]);
    EntriesAreDocuments(m, docs, min, maxd, phrase, f, |docs|);
    NotesCount(m, docs, min, phrase[f]);
    found := MatchAll(ix.h, min, maxd, ws, parts);
  }

  lemma NotesCount(m: map<Word, seq<Entry>>, docs: seq<Document>, min: nat, w: Word)
    requires Recorded(m, docs, min)
    ensures |Wanted(docs, w, min)| == |At(m, w)|
  {
    hide Wanted;
    assert Notes(At(m, w)) == Wanted(docs, w, min);
  }

  /** Indexing documents and searching for a phrase: a quoted phrase is found in exactly the documents that contain it
      if indexed words are longer than the distance, and a phrase that is not quoted always. */
  method IndexThenSearch(ix: Index, docs: seq<Document>, phrase: seq<Word>, min: nat, maxd: uint32)
    returns (found: seq<DocId>)
    requires ix.Valid() && ix.entries == map[] && DistinctIds(docs) && Room(ix.h, ix.db, Flat(docs), min)
    requires exists j :: 0 <= j < |phrase| && |phrase[j]| >= min
    modifies ix`db, ix`entries
    ensures found == Reported(docs, phrase, min, maxd)
    ensures maxd < min && (forall d :: d in docs ==> Tokenized(d)) ==> found == Having(docs, phrase, min, maxd)
    ensures maxd == TWO32 - 1 ==> found == Having(docs, phrase, min, maxd)
  {
    hide Room, Recorded, DistinctIds, Reported, Having, Tokenized, Exact, Matches, Occurs;
    IndexDocuments(ix, docs, min);
    found := Search(ix, phrase, min, maxd, docs);
    SearchedExactly(docs, phrase, min, maxd);
  }

  /** When what is reported is what is there. */
  lemma {:induction false} SearchedExactly(docs: seq<Document>, phrase: seq<Word>, min: nat, maxd: uint32)
    requires exists j :: 0 <= j < |phrase| && |phrase[j]| >= min
    ensures maxd < min && (forall d :: d in docs ==> Tokenized(d)) ==>
              Reported(docs, phrase, min, maxd) == Having(docs, phrase, min, maxd)
    ensures maxd == TWO32 - 1 ==> Reported(docs, phrase, min, maxd) == Having(docs, phrase, min, maxd)
  {
    hide Reported, Having, Tokenized, Exact, PartsIn;
    if maxd < min && forall d :: d in docs ==> Tokenized(d) {
      forall d | d in docs ensures Exact(PartsIn(d, phrase, min), min, maxd) { QuotedExact(d, phrase, min, maxd); }
      ReportedExactly(docs, phrase, min, maxd);
    }
    if maxd == TWO32 - 1 {
      forall d | d in docs ensures Exact(PartsIn(d, phrase, min), min, maxd) { NearIn(d, phrase, min); }
      ReportedExactly(docs, phrase, min, maxd);
    }
  }

  lemma {:induction false} NearIn(d: Document, phrase: seq<Word>, min: nat)
    requires exists j :: 0 <= j < |phrase| && |phrase[j]| >= min
    ensures Exact(PartsIn(d, phrase, min), min, TWO32 - 1)
  {
    hide FirstLong, Exact, Matches, Noted;
    var j :| 0 <= j < |phrase| && |phrase[j]| >= min;
    var parts := PartsIn(d, phrase, min);
    assert parts[j].size >= min;
    NearExact(parts, min);
  }

  // Why indexed words have to be longer than the distance

  const ID: DocId := [1, 0, 0, 0, 0, 0, 0, 0]

  /** A directory of two files, "xyz a" and "a, uvw", taken as one document. */
  const ADJACENT := Document(ID, "xyz aa, uvw", [Token("xyz", 0), Token("a", 4), Token("a", 5), Token("uvw", 8)])
  const PHRASE: seq<Word> := ["xyz", "a", "uvw"]

  /** With words of one letter indexed, first fit takes the "a" of the first file, which leads nowhere. */
  lemma FirstFitMisses()
    ensures Tokenized(ADJACENT)
    ensures Occurs(PartsIn(ADJACENT, PHRASE, 1), 1, 2) && !Matches(PartsIn(ADJACENT, PHRASE, 1), 1, 2)
  {
    hide FirstNear, FirstLong, Places, Tokenized;
    AdjacentTokens();
    AdjacentPlaces();
    var parts := PartsIn(ADJACENT, PHRASE, 1);
    assert parts == [Part(3, [0]), Part(1, [4, 5]), Part(3, [8])];
    FirstLongIs(parts, 1, 0);
    assert Chain(parts, 1, 2, 3, 11);
    assert 8 in parts[2].ps;
    assert Chain(parts, 1, 2, 2, 6);
    assert parts[1].ps[1] == 5 && 5 in parts[1].ps;
    assert Chain(parts, 1, 2, 1, 3);
    assert 0 in parts[0].ps;
    FirstNearIs([4, 5], 3, 2, 0);
    FirstNearIs([8], 5, 2, 1);
    assert !FirstFit(parts, 1, 2, 2, 5);
    assert !FirstFit(parts, 1, 2, 1, 3);
  }

  lemma {:induction false} PlacesOfFour(a: Token, b: Token, c: Token, d: Token, w: Word)
    ensures Places([a, b, c, d], w) == Places([a], w) + Places([b], w) + Places([c], w) + Places([d], w)
  {
    hide Places;
    PlacesConcat([a], [b], w);
    PlacesConcat([a, b], [c], w);
    PlacesConcat([a, b, c], [d], w);
    assert [a] + [b] == [a, b] && [a, b] + [c] == [a, b, c] && [a, b, c] + [d] == [a, b, c, d];
  }

  lemma {:induction false} PlacesInFour(a: Token, b: Token, c: Token, d: Token)
    requires b.word == c.word && a.word != b.word && a.word != d.word && b.word != d.word
    ensures Places([a, b, c, d], a.word) == [a.pos] && Places([a, b, c, d], b.word) == [b.pos, c.pos]
    ensures Places([a, b, c, d], d.word) == [d.pos]
  {
    hide Places;
    forall w: Word
      ensures Places([a, b, c, d], w) == Places([a], w) + Places([b], w) + Places([c], w) + Places([d], w)
    {
      PlacesOfFour(a, b, c, d, w);
    }
    forall t, w: Word ensures Places([t], w) == if t.word == w then [t.pos] else [] {
      PlacesOne(t, w);
    }
  }

  lemma AdjacentPlaces()
    ensures Places(ADJACENT.tokens, "xyz") == [0] && Places(ADJACENT.tokens, "a") == [4, 5] &&
            Places(ADJACENT.tokens, "uvw") == [8]
  {
    hide Places;
    var ts := ADJACENT.tokens;
    assert "xyz"[0] != "uvw"[0];
    PlacesInFour(ts[0], ts[1], ts[2], ts[3]);
  }

  lemma AdjacentTokens()
    ensures Tokenized(ADJACENT)
  {
    var c := ADJACENT.content;
    assert c[0..3] == "xyz" && c[4..5] == "a" && c[5..6] == "a" && c[8..11] == "uvw";
  }

  // No shorter words will do

  function Repeat(c: char, n: nat): (w: string)
    ensures |w| == n
  {
    seq(n, _ => c)
  }

  /** Words of min letters, two of them the same, adjacent but for a gap in front of the last. */
  function Crowded(min: nat, maxd: uint32): Document
    requires 4 * min + maxd < TWO32
  {
    var x, a, u := Repeat('x', min), Repeat('a', min), Repeat('u', min);
    Document(ID, x + a + a + Repeat(' ', maxd) + u,
             [Token(x, 0), Token(a, min), Token(a, 2 * min), Token(u, 3 * min + maxd)])
  }

  function CrowdedPhrase(min: nat): seq<Word>
    requires min < TWO32
  {
    [Repeat('x', min), Repeat('a', min), Repeat('u', min)]
  }

  lemma {:induction false} CrowdedTokens(min: nat, maxd: uint32)
    requires 4 * min + maxd < TWO32
    ensures Tokenized(Crowded(min, maxd))
  {
    var d := Crowded(min, maxd);
    var x, a, u, c := Repeat('x', min), Repeat('a', min), Repeat('u', min), d.content;
    hide Repeat;
    assert c[0..min] == x && c[min..2 * min] == a && c[2 * min..3 * min] == a;
    assert c[3 * min + maxd..4 * min + maxd] == u;
  }

  lemma {:induction false} CrowdedParts(min: nat, maxd: uint32)
    requires 1 <= min && 4 * min + maxd < TWO32
    ensures PartsIn(Crowded(min, maxd), CrowdedPhrase(min), min) ==
            [Part(min, [0]), Part(min, [min, 2 * min]), Part(min, [3 * min + maxd])]
  {
    hide Places;
    var x, a, u := Repeat('x', min), Repeat('a', min), Repeat('u', min);
    assert x[0] == 'x' && a[0] == 'a' && u[0] == 'u';
    hide Repeat;
    PlacesInFour(Token(x, 0), Token(a, min), Token(a, 2 * min), Token(u, 3 * min + maxd));
  }

  /** The first of the two equal words is within reach and leads nowhere, the second leads to the last word. */
  lemma {:induction false} CrowdedMissed(min: nat, maxd: uint32)
    requires 1 <= min <= maxd && 4 * min + maxd < TWO32
    ensures !Exact(PartsIn(Crowded(min, maxd), CrowdedPhrase(min), min), min, maxd)
  {
    hide FirstNear, FirstLong, Places, Crowded, CrowdedPhrase, PartsIn, Wrap;
    CrowdedParts(min, maxd);
    var parts := PartsIn(Crowded(min, maxd), CrowdedPhrase(min), min);
    var last := 3 * min + maxd;
    FirstLongIs(parts, min, 0);
    WrapSmall(min);
    WrapSmall(2 * min);
    WrapSmall(3 * min);
    WrapSmall(last + min);
    WrapSmall(0);
    WrapSmall(maxd);
    WrapSmall(min + maxd);
    assert Chain(parts, min, maxd, 3, last + min);
    assert last in parts[2].ps && last - 3 * min == maxd;
    assert Chain(parts, min, maxd, 2, 3 * min);
    assert parts[1].ps[1] == 2 * min && 2 * min in parts[1].ps;
    assert Chain(parts, min, maxd, 1, min);
    assert 0 in parts[0].ps;
    assert Occurs(parts, min, maxd);
    FirstNearIs([min, 2 * min], min, maxd, 0);
    FirstNearIs([last], 2 * min, maxd, 1);
    assert !FirstFit(parts, min, maxd, 2, 2 * min);
    assert !FirstFit(parts, min, maxd, 1, min);
  }

  /** A quoted search is exact on every document exactly if indexed words are longer than the distance. */
  lemma {:induction false} GuardExactly(min: nat, maxd: uint32)
    requires 1 <= min && 4 * min + maxd < TWO32
    ensures (forall d, phrase :: Tokenized(d) ==> Exact(PartsIn(d, phrase, min), min, maxd)) <==> maxd < min
  {
    hide Exact, Tokenized, PartsIn, Crowded, CrowdedPhrase;
    if maxd < min {
      forall d, phrase | Tokenized(d) ensures Exact(PartsIn(d, phrase, min), min, maxd) {
        QuotedExact(d, phrase, min, maxd);
      }
    } else {
      CrowdedTokens(min, maxd);
      CrowdedMissed(min, maxd);
    }
  }
}
