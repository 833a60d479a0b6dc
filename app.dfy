/**
 * The main page's state: the word list, the in-memory review table, the
 * review-mode selection and the set of revealed words, over the database.
 * Each handler of the page is a method that changes exactly the state its
 * counterpart changes.
 */
module AppModel {
  import opened Wrappers
  import opened Text
  import opened Records
  import opened Reviews
  import opened Store
  import opened Catalogue
  import opened Enrichment
  import opened Scheduler
  import opened Browse
  import opened Seqs

  /**
   * An enrichment whose definition is blank (as `BlankFieldsParse` shows a
   * reply can produce) still stamps a word that had no stamp, but the word
   * joins no review cohort and so is not counted in the review table, while
   * the main page's review mode lists it under its date.
   */
  lemma BlankDefinitionStampsOutsideCohorts(w: Word, info: WordInfo, now: string)
    requires IsBlank(info.definition)
    requires w.grokkedAt.None? && |now| >= 10
    ensures var e := Enriched(w, info, now);
            && e.grokkedAt == Some(now)
            && !IsGrokked(e)
            && Cohort([e], DateKey(now)) == []
            && FilteredWords([e], Filter(AllLevels, AllStatus, [], Some(DateKey(now)))) == [e]
  {
    var e := Enriched(w, info, now);
    CohortSingle(e, DateKey(now));
    var f := Filter(AllLevels, AllStatus, [], Some(DateKey(now)));
    assert Matches(e, f);
    assert [e][..0] == [];
  }

  /**
   * The checkpoint count as written counts a review of a word outside the
   * cohort. A grokked `apple` and a `pear` stamped at the same time by a
   * reply with a blank definition share a date; the cohort is `apple`
   * alone, review mode lists `pear` and revealing it saves a review under
   * that date, after which the cell shows the cohort as all reviewed
   * although `apple` never was. Revealing `apple` at a later checkpoint then
   * shows a second checkpoint as all reviewed too.
   */
  lemma StrayReviewCompletesCheckpoint(apple: Word, pear: Word, now: string, day: int)
    requires IsGrokked(apple) && apple.grokkedAt == Some(now)
    requires pear.grokkedAt == Some(now) && IsBlank(pear.definition) && pear.word != apple.word
    ensures var d := DateKey(now);
            var cohort := Cohort([apple, pear], d);
            var records := ReplaceLatest([], pear.word, day, d);
            && cohort == [apple]
            && FilteredWords([apple, pear], Filter(AllLevels, AllStatus, [], Some(d))) == [apple, pear]
            && AppRevealWrite(pear, {}, Some(d), Some(day)) == Some(ReviewWrite(pear.word, day, d))
            && ReviewIconFor(records, d, |cohort|, Some(day), Some(d), Some(day), day).allReviewed
            && apple.word !in ReviewedWords(records, d, day)
            && CohortCountAt(records, TextsOf(cohort), d, day) == 0
  {
    var d := DateKey(now);
    StrayPairCohort(apple, pear, d);
    StrayPairListed(apple, pear, d);
    ReplaceLatestFirst(pear.word, day, d);
    OneStrayRecord(ReviewRecord(pear.word, day, d, None), apple, d, day);
  }

  lemma OneStrayRecord(r: ReviewRecord, w: Word, date: string, day: int)
    requires r.word != w.word && r.date == date && r.day == day
    ensures CountAt([r], date, day) == 1
    ensures w.word !in ReviewedWords([r], date, day)
    ensures CohortCountAt([r], TextsOf([w]), date, day) == 0
  {
    CountAtOne(r, date, day);
    assert [r][1..] == [];
    assert TextsOf([w]) == {w.word} by {
      assert [w][1..] == [];
    }
  }

  /** The same stray review lets two checkpoints of one cohort both show as all reviewed. */
  lemma StrayReviewCompletesTwoCheckpoints(apple: Word, pear: Word, now: string, day: int, later: int)
    requires IsGrokked(apple) && apple.grokkedAt == Some(now)
    requires pear.grokkedAt == Some(now) && IsBlank(pear.definition) && pear.word != apple.word
    requires day != later
    ensures var d := DateKey(now);
            var cohort := Cohort([apple, pear], d);
            var records := ReplaceLatest(ReplaceLatest([], pear.word, day, d), apple.word, later, d);
            && CountAt(records, d, day) == |cohort|
            && CountAt(records, d, later) == |cohort|
  {
    var d := DateKey(now);
    StrayPairCohort(apple, pear, d);
    var r := ReviewRecord(pear.word, day, d, None);
    var s := ReviewRecord(apple.word, later, d, None);
    ReplaceLatestFirst(pear.word, day, d);
    ReplaceLatestSecond(r, apple.word, later, d);
    CountAtAppend([r], [s], d, day);
    CountAtAppend([r], [s], d, later);
    CountAtOne(r, d, day);
    CountAtOne(s, d, day);
    CountAtOne(r, d, later);
    CountAtOne(s, d, later);
  }

  lemma StrayPairCohort(apple: Word, pear: Word, d: string)
    requires IsGrokked(apple) && CohortDate(apple) == d && !IsGrokked(pear)
    ensures Cohort([apple, pear], d) == [apple]
  {
    CohortAppend([apple], [pear], d);
    assert [apple, pear] == [apple] + [pear];
    CohortSingle(apple, d);
    CohortSingle(pear, d);
  }

  lemma StrayPairListed(apple: Word, pear: Word, d: string)
    requires Truthy(apple.grokkedAt) && Truthy(pear.grokkedAt) && d != []
    requires DateKey(apple.grokkedAt.value) == d && DateKey(pear.grokkedAt.value) == d
    ensures FilteredWords([apple, pear], Filter(AllLevels, AllStatus, [], Some(d))) == [apple, pear]
  {
    var f := Filter(AllLevels, AllStatus, [], Some(d));
    assert Matches(apple, f) && Matches(pear, f);
    assert [apple, pear][..1] == [apple] && [apple][..0] == [];
  }

  lemma ReplaceLatestFirst(word: string, day: int, date: string)
    ensures ReplaceLatest([], word, day, date) == [ReviewRecord(word, day, date, None)]
  {
  }

  lemma ReplaceLatestSecond(r: ReviewRecord, word: string, day: int, date: string)
    requires r.word != word
    ensures ReplaceLatest([r], word, day, date) == [r, ReviewRecord(word, day, date, None)]
  {
    assert [r][1..] == [];
    assert Without([r], word) == [r];
  }

  lemma CountAtOne(r: ReviewRecord, date: string, day: int)
    ensures CountAt([r], date, day) == if r.date == date && r.day == day then 1 else 0
  {
    assert [r][1..] == [];
  }

  /** A review-mode selection: a cohort date and a checkpoint day. */
  datatype Selection = Selection(date: Option<string>, day: Option<int>)

  /** The arguments of one `saveReviewToDB` call. */
  datatype ReviewWrite = ReviewWrite(word: string, day: int, date: string)

  /**
   * The main page's `handleSelectDate`: clicking the selected date clears
   * the selection, whatever checkpoint is clicked; any other date is
   * selected together with the clicked day.
   */
  function AppSelect(selected: Option<string>, date: string, day: int): (r: Selection)
    ensures r.date.Some? <==> r.day.Some?
    ensures r.date.Some? <==> selected != Some(date)
    ensures r.date.Some? ==> r == Selection(Some(date), Some(day))
  {
    var nextDate := if selected == Some(date) then None else Some(date);
    Selection(nextDate, if nextDate.Some? then Some(day) else None)
  }

  /** Clicking the same date twice returns to no selection. */
  lemma AppSelectTwice(selected: Option<string>, date: string, d1: int, d2: int)
    requires selected != Some(date)
    ensures AppSelect(AppSelect(selected, date, d1).date, date, d2) == Selection(None, None)
  {
  }

  /** The date of the review a reveal records: the word's own cohort date, else the selected date, else empty. */
  function ReviewDateFor(w: Word, selected: Option<string>): (r: string)
    ensures Truthy(w.grokkedAt) ==> r == DateKey(w.grokkedAt.value)
    ensures !Truthy(w.grokkedAt) ==> r == selected.GetOr([])
  {
    match GrokDate(w)
    case Some(d) => if d != [] then d else selected.GetOr([])
    case None => selected.GetOr([])
  }

  /** In review mode the review date is never empty, so the emptiness test never fails there. */
  lemma ReviewDateInReviewMode(w: Word, selected: Option<string>)
    requires Truthy(selected)
    ensures ReviewDateFor(w, selected) != []
  {
  }

  /**
   * The write the main page's `toggleReveal` issues: only when the word was
   * hidden, review mode is on, a day is selected and the date is non-empty.
   */
  function AppRevealWrite(w: Word, revealed: set<nat>, selected: Option<string>, day: Option<int>): (r: Option<ReviewWrite>)
    ensures r.Some? <==> w.id !in revealed && Truthy(selected) && day.Some?
    ensures r.Some? ==> r.value == ReviewWrite(w.word, day.value, ReviewDateFor(w, selected))
  {
    var reviewDate := ReviewDateFor(w, selected);
    if w.id !in revealed && Truthy(selected) && day.Some? && reviewDate != [] then
      Some(ReviewWrite(w.word, day.value, reviewDate))
    else None
  }

  /** Revealing a word and hiding it again records one review: the hiding click writes nothing. */
  lemma RevealThenHideWritesOnce(w: Word, revealed: set<nat>, selected: Option<string>, day: Option<int>)
    requires w.id !in revealed && Truthy(selected) && day.Some?
    ensures AppRevealWrite(w, revealed, selected, day).Some?
    ensures AppRevealWrite(w, Toggled(revealed, w.id), selected, day).None?
    ensures Toggled(Toggled(revealed, w.id), w.id) == revealed
  {
    ToggleTwice(revealed, w.id);
  }

  // ---------------------------------------------------------------------------
  // Loading twice

  /** `ws` is what `getAll` reads from the store `m`: records of the store, and every stored id among them. */
  predicate ReadsStore(ws: seq<Word>, m: WordStore) {
    && (forall i :: 0 <= i < |ws| ==> ws[i].id in m && m[ws[i].id] == ws[i])
    && (forall id :: id in m ==> HasId(ws, id))
  }

  /** No two words of the list share a key. */
  predicate DistinctKeys(ws: seq<Word>) {
    forall i, j :: 0 <= i < j < |ws| ==> Key(ws[i]) != Key(ws[j])
  }

  /**
   * The ids the word list is given are new to the store, and rows for
   * different words get different ids (the application draws them from the
   * clock and a random number).
   */
  predicate FreshRows(csv: seq<Word>, m: WordStore) {
    && (forall i :: 0 <= i < |csv| ==> csv[i].id !in m)
    && (forall i, j :: 0 <= i < |csv| && 0 <= j < |csv| && Key(csv[i]) != Key(csv[j]) ==> csv[i].id != csv[j].id)
  }

  /** The merged record under a key carries the id of a stored record with that key, or else a fresh id of a row with that key. */
  lemma MergedIdOrigin(before: WordStore, db: seq<Word>, csv: seq<Word>, k: string)
    requires ReadsStore(db, before) && DistinctKeys(db) && FreshRows(csv, before)
    requires k in Merge(db, csv).table
    ensures var t := Merge(db, csv).table[k];
            && (k in KeysOf(db) ==> t.id in before && Key(before[t.id]) == k && LastWithKey(db, k) == Some(before[t.id]))
            && (k !in KeysOf(db) ==> t.id !in before && exists j :: 0 <= j < |csv| && Key(csv[j]) == k && csv[j].id == t.id)
  {
    MergeRecord(db, csv, k);
    if k in KeysOf(db) {
      var x := LastWithKey(db, k).value;
      var i :| 0 <= i < |db| && db[i] == x;
    } else {
      var x := FirstWithKey(csv, k).value;
      var j :| 0 <= j < |csv| && csv[j] == x;
    }
  }

  /** Different keys of the merge hold records with different ids. */
  lemma MergedIdsDistinct(before: WordStore, db: seq<Word>, csv: seq<Word>)
    requires ReadsStore(db, before) && DistinctKeys(db) && FreshRows(csv, before)
    ensures var table := Merge(db, csv).table;
            forall k1, k2 :: k1 in table && k2 in table && table[k1].id == table[k2].id ==> k1 == k2
  {
    var table := Merge(db, csv).table;
    forall k1, k2 | k1 in table && k2 in table && table[k1].id == table[k2].id
      ensures k1 == k2
    {
      MergedIdOrigin(before, db, csv, k1);
      MergedIdOrigin(before, db, csv, k2);
    }
  }

  /** A key the merge writes nothing for holds its one stored record, unchanged. */
  lemma UnwrittenKeyKeepsStored(db: seq<Word>, csv: seq<Word>, k: string)
    requires DistinctKeys(db)
    requires k in Merge(db, csv).table && k !in KeysOf(Merge(db, csv).toSave)
    ensures k in KeysOf(db) && Merge(db, csv).table[k] == LastWithKey(db, k).value
  {
    MergeRecord(db, csv, k);
    MergeWriteBack(db, csv);
    if k in KeysOf(db) && !RowsAgree(csv, k, LastWithKey(db, k).value.level) {
      var j :| 0 <= j < |csv| && Key(csv[j]) == k && csv[j].level != LastWithKey(db, k).value.level;
      assert csv[j] in csv;
    }
  }

  /** The last of several records put under one id is the last put under their common key. */
  lemma {:induction false} LastWithIdIsLastWithKey(ws: seq<Word>, id: nat, k: string)
    requires forall v :: v in ws ==> (v.id == id <==> Key(v) == k)
    ensures LastWithId(ws, id) == LastWithKey(ws, k)
  {
    if ws != [] {
      SplitLast(ws);
      LastWithIdIsLastWithKey(ws[..|ws| - 1], id, k);
    }
  }

  /** An id the write-back names ends up holding the merged record with that id. */
  lemma WrittenIdHoldsMerged(before: WordStore, db: seq<Word>, csv: seq<Word>, id: nat)
    requires ReadsStore(db, before) && DistinctKeys(db) && FreshRows(csv, before)
    requires id in IdsOf(Merge(db, csv).toSave)
    ensures var m := Merge(db, csv);
            var k := Key(LastWithId(m.toSave, id).value);
            && k in m.table && m.table[k].id == id
            && id in PutAll(before, m.toSave) && PutAll(before, m.toSave)[id] == m.table[k]
  {
    var m := Merge(db, csv);
    SeedWellFormed(db);
    MergeCsvSavedLatest(SeedDb(db), csv);
    MergedIdsDistinct(before, db, csv);
    PutAllAt(before, m.toSave, id);
    var k := Key(LastWithId(m.toSave, id).value);
    LastWithIdIsLastWithKey(m.toSave, id, k);
  }

  /** An id the write-back leaves alone keeps a stored record, which is the merged record under its key. */
  lemma UnwrittenIdHoldsMerged(before: WordStore, db: seq<Word>, csv: seq<Word>, id: nat)
    requires ReadsStore(db, before) && DistinctKeys(db) && FreshRows(csv, before)
    requires id in before && id !in IdsOf(Merge(db, csv).toSave)
    ensures var m := Merge(db, csv);
            && Key(before[id]) in m.table && m.table[Key(before[id])] == before[id]
            && id in PutAll(before, m.toSave) && PutAll(before, m.toSave)[id] == before[id]
  {
    var m := Merge(db, csv);
    var x := before[id];
    var i :| 0 <= i < |db| && db[i].id == id;
    assert db[i] == x;
    var k := Key(x);
    assert k in KeysOf(db);
    MergeRecord(db, csv, k);
    LastWithKeyUniform(db, k, x);
    SeedWellFormed(db);
    MergeCsvSavedLatest(SeedDb(db), csv);
    MergedIdOrigin(before, db, csv, k);
    UnwrittenKeyKeepsStored(db, csv, k);
    PutAllAt(before, m.toSave, id);
  }

  /**
   * After the merge's write-back, the store holds exactly the merged
   * records, provided the stored words have different keys and the word
   * list brings fresh ids; the store then again has one word per key, so
   * the next load starts from the same conditions.
   */
  lemma SavedStoreIsMerge(before: WordStore, db: seq<Word>, csv: seq<Word>)
    requires ReadsStore(db, before) && DistinctKeys(db) && FreshRows(csv, before)
    ensures var m := Merge(db, csv);
            forall w :: w in PutAll(before, m.toSave).Values <==> w in m.table.Values
    ensures var after := PutAll(before, Merge(db, csv).toSave);
            forall id1, id2 :: id1 in after && id2 in after && Key(after[id1]) == Key(after[id2]) ==> after[id1] == after[id2]
  {
    var m := Merge(db, csv);
    var after := PutAll(before, m.toSave);
    MergeWellFormed(db, csv);
    forall w | w in after.Values
      ensures w in m.table.Values
    {
      var id :| id in after && after[id] == w;
      PutAllAt(before, m.toSave, id);
      if id in IdsOf(m.toSave) {
        WrittenIdHoldsMerged(before, db, csv, id);
      } else {
        UnwrittenIdHoldsMerged(before, db, csv, id);
      }
    }
    forall w | w in m.table.Values
      ensures w in after.Values
    {
      var k :| k in m.table && m.table[k] == w;
      SeedWellFormed(db);
      MergeCsvSavedLatest(SeedDb(db), csv);
      MergedIdsDistinct(before, db, csv);
      if k in KeysOf(m.toSave) {
        var u :| u in m.toSave && Key(u) == k;
        WrittenIdHoldsMerged(before, db, csv, u.id);
      } else {
        UnwrittenKeyKeepsStored(db, csv, k);
        MergedIdOrigin(before, db, csv, k);
        UnwrittenIdHoldsMerged(before, db, csv, w.id);
      }
    }
    forall id1, id2 | id1 in after && id2 in after && Key(after[id1]) == Key(after[id2])
      ensures after[id1] == after[id2]
    {
      assert after[id1] in after.Values && after[id2] in after.Values;
      var k1 :| k1 in m.table && m.table[k1] == after[id1];
      var k2 :| k2 in m.table && m.table[k2] == after[id2];
    }
  }

  /**
   * Two loads in a row: when the second reads back the store the first
   * left, and the word list is read again with the same words and levels,
   * the second load writes nothing.
   */
  lemma SecondLoadWritesNothing(before: WordStore, db: seq<Word>, csv: seq<Word>, db2: seq<Word>, csv2: seq<Word>)
    requires ReadsStore(db, before) && DistinctKeys(db) && FreshRows(csv, before)
    requires ReadsStore(db2, PutAll(before, Merge(db, csv).toSave))
    requires forall i, j :: 0 <= i < |csv| && 0 <= j < |csv| && Key(csv[i]) == Key(csv[j]) ==> csv[i].level == csv[j].level
    requires |csv2| == |csv| && forall j :: 0 <= j < |csv| ==> Key(csv2[j]) == Key(csv[j]) && csv2[j].level == csv[j].level
    ensures Merge(db2, csv2).toSave == []
  {
    var m := Merge(db, csv);
    var after := PutAll(before, m.toSave);
    SavedStoreIsMerge(before, db, csv);
    forall w ensures w in db2 <==> w in m.table.Values {
      if w in db2 {
        var i :| 0 <= i < |db2| && db2[i] == w;
        assert after[w.id] == w;
      }
      if w in m.table.Values {
        assert w in after.Values;
        var id :| id in after && after[id] == w;
        var j :| 0 <= j < |db2| && db2[j].id == id;
      }
    }
    MergeIdempotent(db, csv, db2, csv2);
  }

  class App {
    /** `words`: the catalogue as loaded and edited. */
    var words: seq<Word>
    /** `reviewRecords`: the in-memory review table. */
    var reviewRecords: seq<ReviewRecord>
    var selectedReviewDate: Option<string>
    var selectedReviewDay: Option<int>
    var revealedReviewIds: set<nat>
    /** The browser database the page reads and writes. */
    const db: Database

    predicate Valid()
      reads this, db
    {
      db.Valid()
    }

    /** The in-memory review table agrees with the `reviews` store. */
    predicate Synced()
      reads this, db
    {
      Mirrors(reviewRecords, db.reviews)
    }

    /** The page shows the merge of these stored words and catalogue-file words. */
    ghost predicate ShowsMerge(dbWords: seq<Word>, csvWords: seq<Word>)
      reads this`words
    {
      WellFormed(Merge(dbWords, csvWords)) && words == AllWords(Merge(dbWords, csvWords))
    }

    /** The `words` store after the merge's write-back, starting from `before`. */
    function MergeSaved(before: WordStore, dbWords: seq<Word>, csvWords: seq<Word>): WordStore {
      if db.reachable then PutAll(before, Merge(dbWords, csvWords).toSave) else before
    }

    constructor (db: Database)
      requires db.Valid()
      ensures Valid() && this.db == db
      ensures words == [] && reviewRecords == []
      ensures selectedReviewDate == None && selectedReviewDay == None && revealedReviewIds == {}
    {
      this.db := db;
      words := [];
      reviewRecords := [];
      selectedReviewDate := None;
      selectedReviewDay := None;
      revealedReviewIds := {};
    }

    /**
     * The merge half of `loadAllData`: merge the words of the word list into
     * the stored words read, show the merge and write back what it changed.
     */
    method MergeAndSave(dbWords: seq<Word>, csvWords: seq<Word>)
      requires Valid()
      modifies this, db
      ensures Valid()
      ensures ShowsMerge(dbWords, csvWords)
      ensures db.words == MergeSaved(old(db.words), dbWords, csvWords)
      ensures db.reviews == old(db.reviews) && reviewRecords == old(reviewRecords)
      ensures selectedReviewDate == old(selectedReviewDate) && selectedReviewDay == old(selectedReviewDay)
      ensures revealedReviewIds == old(revealedReviewIds)
    {
      var allWords, newWordsToSave := MergeCatalogue(dbWords, csvWords);
      words := allWords;
      if |newWordsToSave| > 0 {
        db.SaveWords(newWordsToSave);
      }
    }

    /**
     * `loadAllData`: read the stored words, then merge the words of the
     * catalogue file into them (`csvText`, `None` when the fetch fails;
     * `idFor` gives the id of the file's i-th word). Returns the stored
     * words read.
     */
    method LoadAllData(csvText: Option<string>, idFor: nat -> nat) returns (dbWords: seq<Word>)
      requires Valid()
      modifies this, db
      ensures Valid()
      ensures forall i :: 0 <= i < |dbWords| ==> dbWords[i].id in old(db.words) && old(db.words)[dbWords[i].id] == dbWords[i]
      ensures forall id :: id in old(db.words) ==> HasId(dbWords, id)
      ensures AscendingIds(dbWords)
      ensures ShowsMerge(dbWords, CsvWords(csvText, idFor))
      ensures db.words == MergeSaved(old(db.words), dbWords, CsvWords(csvText, idFor))
      ensures db.reviews == old(db.reviews) && reviewRecords == old(reviewRecords)
      ensures selectedReviewDate == old(selectedReviewDate) && selectedReviewDay == old(selectedReviewDay)
      ensures revealedReviewIds == old(revealedReviewIds)
    {
      dbWords := db.LoadWords();
      MergeAndSave(dbWords, CsvWords(csvText, idFor));
    }

    /** The second half of the start-up effect: the review table read from its store, which the in-memory table then mirrors. */
    method LoadReviewTable()
      requires Valid()
      modifies this
      ensures Valid() && Synced()
      ensures words == old(words)
      ensures selectedReviewDate == old(selectedReviewDate) && selectedReviewDay == old(selectedReviewDay)
      ensures revealedReviewIds == old(revealedReviewIds)
    {
      var reviews := db.LoadReviews();
      reviewRecords := reviews;
    }

    /** The start-up effect: `loadAllData`, then the review table load. */
    method Mount(csvText: Option<string>, idFor: nat -> nat) returns (dbWords: seq<Word>)
      requires Valid()
      modifies this, db
      ensures Valid() && Synced()
      ensures forall i :: 0 <= i < |dbWords| ==> dbWords[i].id in old(db.words) && old(db.words)[dbWords[i].id] == dbWords[i]
      ensures forall id :: id in old(db.words) ==> HasId(dbWords, id)
      ensures AscendingIds(dbWords)
      ensures ShowsMerge(dbWords, CsvWords(csvText, idFor))
      ensures db.words == MergeSaved(old(db.words), dbWords, CsvWords(csvText, idFor))
      ensures db.reviews == old(db.reviews)
      ensures selectedReviewDate == old(selectedReviewDate) && selectedReviewDay == old(selectedReviewDay)
      ensures revealedReviewIds == old(revealedReviewIds)
    {
      dbWords := LoadAllData(csvText, idFor);
      LoadReviewTable();
    }

    /**
     * `saveReviewToDB`: the get-then-put on the `reviews` store and, once the
     * write succeeded, the word's records replaced by the new one at the end
     * of the in-memory table.
     */
    method SaveReview(word: string, day: int, date: string)
      requires Valid()
      modifies this, db
      ensures Valid()
      ensures db.reviews == if db.reachable then Upsert(old(db.reviews), word, day, date) else old(db.reviews)
      ensures reviewRecords == if db.reachable then ReplaceLatest(old(reviewRecords), word, day, date) else old(reviewRecords)
      ensures old(Synced()) ==> Synced()
      ensures db.words == old(db.words) && words == old(words)
      ensures selectedReviewDate == old(selectedReviewDate) && selectedReviewDay == old(selectedReviewDay)
      ensures revealedReviewIds == old(revealedReviewIds)
    {
      ghost var wasSynced := Synced();
      var saved := db.SaveReview(word, day, date);
      if saved {
        reviewRecords := ReplaceLatest(reviewRecords, word, day, date);
        if wasSynced {
          SaveKeepsMirror(old(reviewRecords), old(db.reviews), word, day, date);
        }
      }
    }

    /**
     * The reply handler of `handleGrokWord`: a reply with at least four
     * fields enriches the word and the enriched word is stored; any other
     * reply changes nothing.
     */
    method HandleGrokWord(id: nat, content: string, now: string)
      requires Valid()
      modifies this, db
      ensures Valid()
      ensures words == ApplyWordInfo(old(words), id, content, now)
      ensures db.words == if ParseWordInfo(content).Some? && FindById(words, id).Some? && db.reachable
                          then old(db.words)[id := FindById(words, id).value]
                          else old(db.words)
      ensures db.reviews == old(db.reviews) && reviewRecords == old(reviewRecords)
      ensures selectedReviewDate == old(selectedReviewDate) && selectedReviewDay == old(selectedReviewDay)
      ensures revealedReviewIds == old(revealedReviewIds)
    {
      if ParseWordInfo(content).Some? {
        words := ApplyWordInfo(words, id, content, now);
        var updated := FindById(words, id);
        if updated.Some? {
          db.SaveWord(updated.value);
        }
      }
    }

    /** `handleNoPOS`: the word's part of speech becomes `-` and the word is stored. */
    method HandleNoPOS(id: nat)
      requires Valid()
      modifies this, db
      ensures Valid()
      ensures words == MarkUnderstood(old(words), id)
      ensures db.words == if FindById(words, id).Some? && db.reachable
                          then old(db.words)[id := FindById(words, id).value]
                          else old(db.words)
      ensures db.reviews == old(db.reviews) && reviewRecords == old(reviewRecords)
      ensures selectedReviewDate == old(selectedReviewDate) && selectedReviewDay == old(selectedReviewDay)
      ensures revealedReviewIds == old(revealedReviewIds)
    {
      words := MarkUnderstood(words, id);
      var updated := FindById(words, id);
      if updated.Some? {
        db.SaveWord(updated.value);
      }
    }

    /** A click on a due checkpoint of `date` in the review table. */
    method SelectDate(date: string, day: int)
      modifies this
      ensures Selection(selectedReviewDate, selectedReviewDay) == AppSelect(old(selectedReviewDate), date, day)
      ensures revealedReviewIds == {}
      ensures words == old(words) && reviewRecords == old(reviewRecords)
    {
      var nextDate := if selectedReviewDate == Some(date) then None else Some(date);
      selectedReviewDate := nextDate;
      selectedReviewDay := if nextDate.Some? then Some(day) else None;
      revealedReviewIds := {};
    }

    /**
     * A click on a word of the list: its id is toggled in the reveal set and,
     * when the click reveals a hidden word in review mode, the review is saved.
     */
    method ToggleReveal(w: Word)
      requires Valid()
      modifies this, db
      ensures Valid()
      ensures revealedReviewIds == Toggled(old(revealedReviewIds), w.id)
      ensures var write := AppRevealWrite(w, old(revealedReviewIds), old(selectedReviewDate), old(selectedReviewDay));
              && (write.None? ==> db.reviews == old(db.reviews) && reviewRecords == old(reviewRecords))
              && (write.Some? && db.reachable ==>
                    db.reviews == Upsert(old(db.reviews), write.value.word, write.value.day, write.value.date) &&
                    reviewRecords == ReplaceLatest(old(reviewRecords), write.value.word, write.value.day, write.value.date))
              && (!db.reachable ==> db.reviews == old(db.reviews) && reviewRecords == old(reviewRecords))
      ensures old(Synced()) ==> Synced()
      ensures words == old(words) && db.words == old(db.words)
      ensures selectedReviewDate == old(selectedReviewDate) && selectedReviewDay == old(selectedReviewDay)
    {
      var isRevealed := w.id in revealedReviewIds;
      var isReviewMode := Truthy(selectedReviewDate);
      revealedReviewIds := Toggled(revealedReviewIds, w.id);
      var reviewDay := selectedReviewDay;
      var reviewDate := ReviewDateFor(w, selectedReviewDate);
      if !isRevealed && isReviewMode && reviewDay.Some? && reviewDate != [] {
        SaveReview(w.word, reviewDay.value, reviewDate);
      }
    }
  }
}
