/**
 * The application's IndexedDB database: the `words` object store keyed by
 * `id` and the `reviews` object store keyed by `word`. `put` inserts or
 * replaces the record under its key; `getAll` lists the records in key
 * order. When the database cannot be opened every save is a no-op and every
 * load returns nothing, as the application's error handlers arrange.
 */
module Store {
  import opened Wrappers
  import opened Records
  import opened Reviews
  import opened Seqs

  /** The `words` store. */
  type WordStore = map<nat, Word>

  /** The ids of a list of words. */
  function IdsOf(ws: seq<Word>): set<nat> {
    set w | w in ws :: w.id
  }

  /** The last word of `ws` with the given id. */
  function LastWithId(ws: seq<Word>, id: nat): (r: Option<Word>)
    ensures r.Some? <==> id in IdsOf(ws)
    ensures r.Some? ==> r.value in ws && r.value.id == id
  {
    if ws == [] then None
    else
      var w := ws[|ws| - 1];
      assert IdsOf(ws) == IdsOf(ws[..|ws| - 1]) + {w.id} by {
        SplitLast(ws);
      }
      if w.id == id then Some(w) else LastWithId(ws[..|ws| - 1], id)
  }

  /** The store after `put` of each word in turn. */
  function PutAll(m: WordStore, ws: seq<Word>): WordStore {
    if ws == [] then m
    else
      var w := ws[|ws| - 1];
      PutAll(m, ws[..|ws| - 1])[w.id := w]
  }

  /** After a batch of puts each id holds the last word put under it, and untouched ids keep their records. */
  lemma {:induction false} PutAllAt(m: WordStore, ws: seq<Word>, id: nat)
    ensures id in PutAll(m, ws) <==> id in m || id in IdsOf(ws)
    ensures id in IdsOf(ws) ==> PutAll(m, ws)[id] == LastWithId(ws, id).value
    ensures id !in IdsOf(ws) && id in m ==> PutAll(m, ws)[id] == m[id]
  {
    if ws != [] {
      var init := ws[..|ws| - 1];
      PutAllAt(m, init, id);
      SplitLast(ws);
      assert IdsOf(ws) == IdsOf(init) + {ws[|ws| - 1].id};
    }
  }

  /** Every word sits under its own id (the store's key path is `id`). */
  predicate KeyedById(m: WordStore) {
    forall id :: id in m ==> m[id].id == id
  }

  /** Puts keep the store keyed by id. */
  lemma {:induction false} PutAllKeyed(m: WordStore, ws: seq<Word>)
    requires KeyedById(m)
    ensures KeyedById(PutAll(m, ws))
  {
    if ws != [] {
      PutAllKeyed(m, ws[..|ws| - 1]);
    }
  }

  /** Some word in the list has this id. */
  predicate HasId(ws: seq<Word>, id: nat) {
    exists i :: 0 <= i < |ws| && ws[i].id == id
  }

  /** `k` is the least of the ids in `s`. */
  predicate Least(k: nat, s: set<nat>) {
    k in s && forall j :: j in s ==> k <= j
  }

  lemma {:induction false} LeastExists(s: set<nat>)
    requires s != {}
    ensures exists k :: Least(k, s)
  {
    var x :| x in s;
    if s == {x} {
      assert Least(x, s);
    } else {
      var s' := s - {x};
      LeastExists(s');
      var m :| Least(m, s');
      var least := if x < m then x else m;
      forall j | j in s ensures least <= j {
        if j != x {
          assert j in s';
        }
      }
      assert Least(least, s);
    }
  }

  /** Strictly ascending ids. */
  predicate AscendingIds(r: seq<Word>) {
    forall i, j :: 0 <= i < j < |r| ==> r[i].id < r[j].id
  }

  /** Every id listed is below every id still to come. */
  predicate ListedBelow(r: seq<Word>, rest: set<nat>) {
    forall i, id :: 0 <= i < |r| && id in rest ==> r[i].id < id
  }

  /** Appending the least remaining id keeps the list ascending and below what remains. */
  lemma AppendLeast(r: seq<Word>, w: Word, rest: set<nat>)
    requires AscendingIds(r) && ListedBelow(r, rest) && Least(w.id, rest)
    ensures AscendingIds(r + [w]) && ListedBelow(r + [w], rest - {w.id})
    ensures forall id :: HasId(r, id) ==> HasId(r + [w], id)
    ensures HasId(r + [w], w.id)
  {
    var r' := r + [w];
    assert forall i :: 0 <= i < |r| ==> r'[i] == r[i];
    assert r'[|r|] == w;
    forall id | HasId(r, id) ensures HasId(r', id) {
      var i :| 0 <= i < |r| && r[i].id == id;
      assert r'[i].id == id;
    }
  }

  /** The cursor of `getAll` over the `words` store: every record once, in ascending key order. */
  method InKeyOrder(m: WordStore) returns (r: seq<Word>)
    requires KeyedById(m)
    ensures forall i :: 0 <= i < |r| ==> r[i].id in m && m[r[i].id] == r[i]
    ensures forall id :: id in m ==> HasId(r, id)
    ensures AscendingIds(r)
  {
    r := [];
    var rest := m.Keys;
    while rest != {}
      invariant rest <= m.Keys
      invariant forall i :: 0 <= i < |r| ==> r[i].id in m && m[r[i].id] == r[i] && r[i].id !in rest
      invariant forall id :: id in m ==> id in rest || HasId(r, id)
      invariant AscendingIds(r) && ListedBelow(r, rest)
      decreases |rest|
    {
      LeastExists(rest);
      var k :| Least(k, rest);
      AppendLeast(r, m[k], rest);
      r := r + [m[k]];
      rest := rest - {k};
    }
  }

  class Database {
    /** The `words` store. */
    var words: WordStore
    /** The `reviews` store. */
    var reviews: ReviewStore
    /** Whether the database opens; when it does not, the application's handlers swallow the error. */
    const reachable: bool

    /** Both stores hold each record under its key path; a database that never opens holds nothing. */
    predicate Valid()
      reads this
    {
      KeyedById(words) && KeyedByWord(reviews) && (!reachable ==> words == map[] && reviews == map[])
    }

    constructor (reachable: bool)
      ensures Valid() && this.reachable == reachable
      ensures words == map[] && reviews == map[]
    {
      this.reachable := reachable;
      words := map[];
      reviews := map[];
    }

    /** `saveWordToDB`: put one word. */
    method SaveWord(w: Word)
      requires Valid()
      modifies this
      ensures Valid()
      ensures words == if reachable then old(words)[w.id := w] else old(words)
      ensures reviews == old(reviews)
    {
      if reachable {
        words := words[w.id := w];
      }
    }

    /** `saveWordsToDB`: put each word in turn, so a later word with the same id replaces an earlier one. */
    method SaveWords(ws: seq<Word>)
      requires Valid()
      modifies this
      ensures Valid()
      ensures words == if reachable then PutAll(old(words), ws) else old(words)
      ensures reviews == old(reviews)
    {
      if !reachable {
        return;
      }
      for i := 0 to |ws|
        invariant words == PutAll(old(words), ws[..i])
        invariant reviews == old(reviews)
      {
        assert ws[..i + 1][..i] == ws[..i];
        words := words[ws[i].id := ws[i]];
      }
      assert ws[..|ws|] == ws;
      PutAllKeyed(old(words), ws);
    }

    /** `loadWordsFromDB`: every stored word once, in ascending id order (the key order of `getAll`). */
    method LoadWords() returns (r: seq<Word>)
      requires Valid()
      ensures !reachable ==> r == []
      ensures forall i :: 0 <= i < |r| ==> r[i].id in words && words[r[i].id] == r[i]
      ensures forall id :: id in words ==> HasId(r, id)
      ensures AscendingIds(r)
    {
      if !reachable {
        return [];
      }
      r := InKeyOrder(words);
    }

    /**
     * `saveReviewToDB`'s store half: read the word's record, then put the
     * updated or the new one. Reports whether the write happened, since the
     * application only updates its in-memory list after a successful write.
     */
    method SaveReview(word: string, day: int, date: string) returns (saved: bool)
      requires Valid()
      modifies this
      ensures Valid()
      ensures saved == reachable
      ensures reviews == if reachable then Upsert(old(reviews), word, day, date) else old(reviews)
      ensures words == old(words)
    {
      saved := reachable;
      if reachable {
        var existing := if word in reviews then Some(reviews[word]) else None;
        UpsertRecord(reviews, word, day, date);
        reviews := reviews[word := Upserted(existing, word, day, date)];
      }
    }

    /** `loadReviewsFromDB`: every stored review once, so the list mirrors the store. */
    method LoadReviews() returns (r: seq<ReviewRecord>)
      requires Valid()
      ensures !reachable ==> r == []
      ensures Mirrors(r, reviews)
      ensures forall i :: 0 <= i < |r| ==> r[i] == reviews[r[i].word]
    {
      r := [];
      if !reachable {
        return;
      }
      var rest := reviews.Keys;
      while rest != {}
        invariant rest <= reviews.Keys
        invariant DistinctWords(r)
        invariant forall i :: 0 <= i < |r| ==> r[i].word in reviews && r[i] == reviews[r[i].word] && r[i].word !in rest
        invariant forall k :: k in reviews ==> k in rest || Listed(r, k)
        decreases |rest|
      {
        var k :| k in rest;
        ghost var r0 := r;
        r := r + [reviews[k]];
        assert r[|r| - 1].word == k;
        forall k' | Listed(r0, k') ensures Listed(r, k') {
          var i :| 0 <= i < |r0| && r0[i].word == k';
          assert r[i] == r0[i];
        }
        rest := rest - {k};
      }
    }
  }
}
