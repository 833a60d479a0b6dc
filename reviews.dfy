/**
 * The "latest checkpoint per word" table: the `reviews` object store keyed
 * by the word text, and the in-memory list of review records the
 * application keeps beside it.
 */
module Reviews {
  import opened Wrappers
  import opened Records
  import opened Seqs

  /** The `reviews` store: one record per word, under its own word text. */
  type ReviewStore = map<string, ReviewRecord>

  /** Every record sits under its own word (the store's key path is `word`). */
  predicate KeyedByWord(m: ReviewStore) {
    forall k :: k in m ==> m[k].word == k
  }

  /**
   * The record `put` after reading the existing one: an existing record keeps
   * its other fields (the reward among them) and gets the new day and date;
   * otherwise a fresh record without a reward.
   */
  function Upserted(existing: Option<ReviewRecord>, word: string, day: int, date: string): (r: ReviewRecord)
    ensures r.day == day && r.date == date
    ensures existing.Some? ==> r.word == existing.value.word && r.reward == existing.value.reward
    ensures existing.None? ==> r.word == word && r.reward.None?
  {
    match existing
    case Some(e) => e.(day := day, date := date)
    case None => ReviewRecord(word, day, date, None)
  }

  /** The store after the get-then-put of one review. */
  function Upsert(m: ReviewStore, word: string, day: int, date: string): (r: ReviewStore)
    ensures r.Keys == m.Keys + {word}
    ensures forall k :: k in m && k != word ==> r[k] == m[k]
  {
    m[word := Upserted(if word in m then Some(m[word]) else None, word, day, date)]
  }

  /** Saving a review keeps the store keyed by word, with the new checkpoint under the word and its reward kept. */
  lemma UpsertRecord(m: ReviewStore, word: string, day: int, date: string)
    requires KeyedByWord(m)
    ensures KeyedByWord(Upsert(m, word, day, date))
    ensures var r := Upsert(m, word, day, date)[word];
            r.word == word && r.day == day && r.date == date &&
            r.reward == (if word in m then m[word].reward else None)
  {
  }

  /** A later save for the same word replaces an earlier one outright: only the latest checkpoint is kept. */
  lemma UpsertLastWins(m: ReviewStore, word: string, d1: int, t1: string, d2: int, t2: string)
    ensures Upsert(Upsert(m, word, d1, t1), word, d2, t2) == Upsert(m, word, d2, t2)
  {
  }

  /** Saves for different words do not interfere. */
  lemma UpsertCommutes(m: ReviewStore, w1: string, d1: int, t1: string, w2: string, d2: int, t2: string)
    requires w1 != w2
    ensures Upsert(Upsert(m, w1, d1, t1), w2, d2, t2) == Upsert(Upsert(m, w2, d2, t2), w1, d1, t1)
  {
  }

  /** `list.filter(r => r.word !== word)`. */
  function Without(list: seq<ReviewRecord>, word: string): (r: seq<ReviewRecord>)
    ensures |r| <= |list|
    ensures forall x :: x in r <==> x in list && x.word != word
  {
    if list == [] then []
    else if list[0].word == word then Without(list[1..], word)
    else [list[0]] + Without(list[1..], word)
  }

  /** The in-memory list after a save: the word's records removed, the new record appended. */
  function ReplaceLatest(list: seq<ReviewRecord>, word: string, day: int, date: string): (r: seq<ReviewRecord>)
    ensures |r| >= 1 && r[|r| - 1] == ReviewRecord(word, day, date, None)
  {
    Without(list, word) + [ReviewRecord(word, day, date, None)]
  }

  lemma {:induction false} WithoutAppend(a: seq<ReviewRecord>, b: seq<ReviewRecord>, word: string)
    ensures Without(a + b, word) == Without(a, word) + Without(b, word)
  {
    if a == [] {
      assert a + b == b;
    } else {
      var t := a[1..];
      DropFirstOfAppend(a, b);
      WithoutAppend(t, b, word);
      if a[0].word != word {
        AppendAssoc([a[0]], Without(t, word), Without(b, word));
      }
    }
  }

  lemma {:induction false} WithoutTwice(list: seq<ReviewRecord>, word: string)
    ensures Without(Without(list, word), word) == Without(list, word)
  {
    if list != [] {
      WithoutTwice(list[1..], word);
      if list[0].word != word {
        assert ([list[0]] + Without(list[1..], word))[1..] == Without(list[1..], word);
      }
    }
  }

  lemma {:induction false} WithoutCommutes(list: seq<ReviewRecord>, u: string, v: string)
    ensures Without(Without(list, u), v) == Without(Without(list, v), u)
  {
    if list != [] {
      WithoutCommutes(list[1..], u, v);
      var x := list[0];
      if x.word != u {
        assert ([x] + Without(list[1..], u))[1..] == Without(list[1..], u);
      }
      if x.word != v {
        assert ([x] + Without(list[1..], v))[1..] == Without(list[1..], v);
      }
      if x.word != u && x.word != v {
        assert ([x] + Without(Without(list[1..], u), v))[1..] == Without(Without(list[1..], u), v);
        assert ([x] + Without(Without(list[1..], v), u))[1..] == Without(Without(list[1..], v), u);
      }
    }
  }

  /**
   * After a save the list holds exactly one record for the word, and it is
   * the last one; the records of every other word are the ones before, in
   * the same relative order.
   */
  lemma ReplaceLatestShape(list: seq<ReviewRecord>, word: string, day: int, date: string)
    ensures var r := ReplaceLatest(list, word, day, date);
            && (forall i :: 0 <= i < |r| - 1 ==> r[i].word != word)
            && Without(r, word) == Without(list, word)
            && (forall v :: v != word ==> Without(r, v) == Without(Without(list, v), word) + [r[|r| - 1]])
  {
    var r := ReplaceLatest(list, word, day, date);
    var last := ReviewRecord(word, day, date, None);
    forall i | 0 <= i < |r| - 1 ensures r[i].word != word {
      assert r[i] in Without(list, word);
    }
    WithoutAppend(Without(list, word), [last], word);
    WithoutTwice(list, word);
    assert Without([last], word) == [];
    forall v | v != word
      ensures Without(r, v) == Without(Without(list, v), word) + [r[|r| - 1]]
    {
      WithoutAppend(Without(list, word), [last], v);
      WithoutCommutes(list, word, v);
      assert Without([last], v) == [last] by {
        assert [last][1..] == [];
      }
    }
  }

  /** The words of a list of records are pairwise different. */
  predicate DistinctWords(list: seq<ReviewRecord>) {
    forall i, j :: 0 <= i < j < |list| ==> list[i].word != list[j].word
  }

  /**
   * The in-memory list mirrors the store: one record per stored word, with
   * the stored day and date.
   */
  predicate Mirrors(list: seq<ReviewRecord>, m: ReviewStore) {
    && DistinctWords(list)
    && (forall i :: 0 <= i < |list| ==> list[i].word in m)
    && (forall k :: k in m ==> Listed(list, k))
    && (forall i :: 0 <= i < |list| ==> m[list[i].word].day == list[i].day && m[list[i].word].date == list[i].date)
  }

  lemma {:induction false} WithoutDistinct(list: seq<ReviewRecord>, word: string)
    requires DistinctWords(list)
    ensures DistinctWords(Without(list, word))
  {
    if list != [] {
      WithoutDistinct(list[1..], word);
      var rest := Without(list[1..], word);
      forall j | 0 <= j < |rest| ensures rest[j].word != list[0].word {
        assert rest[j] in list[1..];
      }
    }
  }

  /** The word has a record in the list. */
  predicate Listed(list: seq<ReviewRecord>, k: string) {
    exists i :: 0 <= i < |list| && list[i].word == k
  }

  lemma ReplaceLatestDistinct(list: seq<ReviewRecord>, word: string, day: int, date: string)
    requires DistinctWords(list)
    ensures DistinctWords(ReplaceLatest(list, word, day, date))
  {
    var r := ReplaceLatest(list, word, day, date);
    var w := Without(list, word);
    WithoutDistinct(list, word);
    forall i, j | 0 <= i < j < |r| ensures r[i].word != r[j].word {
      if j < |r| - 1 {
        assert r[i] == w[i] && r[j] == w[j];
      } else {
        assert r[i] in w;
      }
    }
  }

  lemma ReplaceLatestListed(list: seq<ReviewRecord>, word: string, day: int, date: string, k: string)
    ensures Listed(ReplaceLatest(list, word, day, date), k) <==> k == word || Listed(list, k)
  {
    var r := ReplaceLatest(list, word, day, date);
    var w := Without(list, word);
    if k == word {
      assert r[|r| - 1].word == k;
    } else if Listed(list, k) {
      var i :| 0 <= i < |list| && list[i].word == k;
      assert list[i] in w;
      var j :| 0 <= j < |w| && w[j] == list[i];
      assert r[j] == w[j];
    }
    if Listed(r, k) && k != word {
      var i :| 0 <= i < |r| && r[i].word == k;
      assert r[i] == w[i] && w[i] in list;
    }
  }

  /**
   * Saving to the store and then updating the list keeps the list a mirror
   * of the store: the in-memory table and the stored table agree on every
   * word's latest checkpoint.
   */
  lemma SaveKeepsMirror(list: seq<ReviewRecord>, m: ReviewStore, word: string, day: int, date: string)
    requires KeyedByWord(m) && Mirrors(list, m)
    ensures Mirrors(ReplaceLatest(list, word, day, date), Upsert(m, word, day, date))
  {
    var r := ReplaceLatest(list, word, day, date);
    var m' := Upsert(m, word, day, date);
    var w := Without(list, word);
    ReplaceLatestDistinct(list, word, day, date);
    forall k | k in m' ensures Listed(r, k) {
      ReplaceLatestListed(list, word, day, date, k);
      if k != word {
        assert Listed(list, k);
      }
    }
    forall i | 0 <= i < |r|
      ensures r[i].word in m'
      ensures m'[r[i].word].day == r[i].day && m'[r[i].word].date == r[i].date
    {
      if i < |r| - 1 {
        assert r[i] == w[i] && w[i] in list;
      }
    }
  }

  /** Records with the given date and day: the reviews that count towards one checkpoint. */
  function CountAt(list: seq<ReviewRecord>, date: string, day: int): (n: nat)
    ensures n <= |list|
  {
    if list == [] then 0
    else (if list[0].date == date && list[0].day == day then 1 else 0) + CountAt(list[1..], date, day)
  }

  /** Records with the given date and day are counted once each. */
  lemma {:induction false} CountAtAppend(a: seq<ReviewRecord>, b: seq<ReviewRecord>, date: string, day: int)
    ensures CountAt(a + b, date, day) == CountAt(a, date, day) + CountAt(b, date, day)
  {
    if a != [] {
      CountAtAppend(a[1..], b, date, day);
      DropFirstOfAppend(a, b);
    } else {
      assert a + b == b;
    }
  }
}
