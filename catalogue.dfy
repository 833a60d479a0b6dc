/**
 * The word catalogue: turning the static CEFR word list (a CSV text) into
 * word records, and merging those with the records already stored, keyed by
 * the lower-cased word text. Stored records win; a CSV row only contributes
 * a new word or a changed difficulty level, and exactly those records are
 * written back.
 */
module Catalogue {
  import opened Wrappers
  import opened Text
  import opened Records
  import opened Seqs

  /** A difficulty level with its display label. */
  datatype Level = Level(level: int, levelLabel: string)

  const Basic := Level(1, "1 (Basic)")
  const Intermediate := Level(2, "2 (Intermediate)")
  const Advanced := Level(3, "3 (Advanced)")

  /** A two-character CEFR tag `<band>1` or `<band>2`, the band letter in either case. */
  predicate IsCefrBand(cefr: string, band: char)
    requires 'A' <= band <= 'Z'
  {
    |cefr| == 2 && (cefr[0] == band || cefr[0] == LowerChar(band)) && (cefr[1] == '1' || cefr[1] == '2')
  }

  /** The level of a CEFR tag: B1/B2 are intermediate, C1/C2 advanced, A1/A2 and anything else basic. */
  function LevelFromCefr(cefr: string): (r: Level)
    ensures IsCefrBand(cefr, 'B') ==> r == Intermediate
    ensures IsCefrBand(cefr, 'C') ==> r == Advanced
    ensures !IsCefrBand(cefr, 'B') && !IsCefrBand(cefr, 'C') ==> r == Basic
  {
    var u := Upper(cefr);
    assert |cefr| == 2 ==> u == [UpperChar(cefr[0]), UpperChar(cefr[1])];
    if u == "A1" || u == "A2" then Basic
    else if u == "B1" || u == "B2" then Intermediate
    else if u == "C1" || u == "C2" then Advanced
    else Basic
  }

  /** The level of a tag does not depend on how the tag is capitalised. */
  lemma LevelIgnoresCase(cefr: string)
    ensures LevelFromCefr(Lower(cefr)) == LevelFromCefr(cefr)
  {
    UpperOfLower(cefr);
  }

  // ---------------------------------------------------------------------------
  // CSV rows

  /** `lines.filter(line => line.trim().length > 0)`. */
  function NonBlank(lines: seq<string>): (r: seq<string>)
    ensures |r| <= |lines|
    ensures forall l :: l in r <==> l in lines && !IsBlank(l)
    ensures forall i :: 0 <= i < |r| ==> !IsBlank(r[i])
  {
    if lines == [] then []
    else (if |Trim(lines[0])| > 0 then [lines[0]] else []) + NonBlank(lines[1..])
  }

  /**
   * The filter works line by line and keeps the order: filtering two runs
   * of lines one after the other is filtering each run.
   */
  lemma {:induction false} NonBlankAppend(a: seq<string>, b: seq<string>)
    ensures NonBlank(a + b) == NonBlank(a) + NonBlank(b)
  {
    if a == [] {
      assert a + b == b;
    } else {
      NonBlankAppend(a[1..], b);
      DropFirstOfAppend(a, b);
      AppendAssoc(if |Trim(a[0])| > 0 then [a[0]] else [], NonBlank(a[1..]), NonBlank(b));
    }
  }

  /** The data lines of the word list: blank lines dropped, then the header line skipped. */
  function DataLines(text: string): (r: seq<string>)
    ensures forall i :: 0 <= i < |r| ==> !IsBlank(r[i])
    ensures |r| == if NonBlank(Split(text, '\n')) == [] then 0 else |NonBlank(Split(text, '\n'))| - 1
    ensures NonBlank(Split(text, '\n')) == [] ==> r == []
    ensures NonBlank(Split(text, '\n')) != [] ==> NonBlank(Split(text, '\n')) == [NonBlank(Split(text, '\n'))[0]] + r
  {
    var lines := NonBlank(Split(text, '\n'));
    if lines == [] then []
    else
      assert forall i :: 0 <= i < |lines| - 1 ==> lines[1..][i] == lines[i + 1];
      SplitFirst(lines);
      lines[1..]
  }

  /** The text of `s` before the first `c`: `s.split(c)[0]`. */
  function FirstSegment(s: string, c: char): (r: string)
    ensures StartsWith(s, r) && c !in r
    ensures |r| < |s| ==> s[|r|] == c
  {
    if |s| == 0 then []
    else if s[0] == c then []
    else [s[0]] + FirstSegment(s[1..], c)
  }

  lemma {:induction false} FirstSegmentIsFirstPiece(s: string, c: char)
    ensures Split(s, c)[0] == FirstSegment(s, c)
  {
    if |s| > 0 && s[0] != c {
      FirstSegmentIsFirstPiece(s[1..], c);
    }
  }

  /** The headword of a CSV row: only the first of `a/b` alternatives, trimmed. */
  function Headword(field: string): (r: string)
    ensures r == Trim(FirstSegment(field, '/'))
    ensures '/' !in r
  {
    FirstSegmentIsFirstPiece(field, '/');
    if '/' in field then Trim(Split(field, '/')[0])
    else
      assert FirstSegment(field, '/') == field;
      Trim(field)
  }

  lemma HeadwordChars(field: string)
    ensures forall c :: c in Headword(field) ==> c in field
  {
    var seg := FirstSegment(field, '/');
    forall c | c in Headword(field) ensures c in field {
      PrefixMember(field, seg, c);
    }
  }

  /** Column `i` of a row, `''` when the row is shorter (the destructuring default). */
  function Column(fields: seq<string>, i: nat): string {
    if i < |fields| then fields[i] else ""
  }

  /** A catalogue entry straight from the word list: no enrichment, no grok stamp, a known level. */
  predicate IsFreshEntry(w: Word) {
    && w.pos == [] && w.phonetic == [] && w.definition == [] && w.example == []
    && !w.revealed && w.imageUrl == None && w.grokkedAt == None
    && 1 <= w.level <= 3
    && '/' !in w.word && ',' !in w.word
  }

  /** A line with at least two comma-separated columns. */
  predicate HasCefrColumn(line: string) {
    |SplitTrim(line, ',')| >= 2
  }

  lemma {:induction false} CountZero(s: string, c: char)
    ensures Count(s, c) == 0 <==> c !in s
  {
    if |s| > 0 {
      CountZero(s[1..], c);
      assert s == [s[0]] + s[1..];
    }
  }

  /** A line has a CEFR column exactly when it holds a comma. */
  lemma CefrColumnIffComma(line: string)
    ensures HasCefrColumn(line) <==> ',' in line
  {
    SplitCount(line, ',');
    CountZero(line, ',');
  }

  /** The word record of one CSV line (the line must have a CEFR column). */
  function RowToWord(line: string, id: nat): (w: Word)
    requires HasCefrColumn(line)
    ensures IsFreshEntry(w) && w.id == id
  {
    var fields := SplitTrim(line, ',');
    var lv := LevelFromCefr(fields[1]);
    var hw := Headword(fields[0]);
    HeadwordChars(fields[0]);
    Word(id, hw, lv.level, lv.levelLabel, "", "", "", "", false, None, None,
         Some(Column(fields, 2)), Some(Column(fields, 3)))
  }

  /**
   * What a CSV line contributes: the headword is the trimmed text before the
   * first `/`, the level follows the CEFR column, and the TOEFL and IELTS
   * columns default to `''` when the line is short.
   */
  lemma RowToWordFields(line: string, id: nat)
    requires HasCefrColumn(line)
    ensures RowToWord(line, id).word == Trim(FirstSegment(SplitTrim(line, ',')[0], '/'))
    ensures Level(RowToWord(line, id).level, RowToWord(line, id).levelLabel) == LevelFromCefr(SplitTrim(line, ',')[1])
    ensures RowToWord(line, id).toefl == Some(Column(SplitTrim(line, ','), 2))
    ensures RowToWord(line, id).ielts == Some(Column(SplitTrim(line, ','), 3))
  {
  }

  /**
   * `rows.map((line, index) => ...)`, `idFor(index)` giving the id of row
   * `index`; `None` when some row has no CEFR column (reading its upper case
   * throws, which abandons the whole mapping).
   */
  function ParseRows(rows: seq<string>, idFor: nat -> nat): (r: Option<seq<Word>>)
    ensures r.Some? <==> forall i :: 0 <= i < |rows| ==> HasCefrColumn(rows[i])
    ensures r.Some? ==> |r.value| == |rows| && forall i :: 0 <= i < |rows| ==> IsFreshEntry(r.value[i])
    ensures r.Some? ==> forall i :: 0 <= i < |rows| ==> HasCefrColumn(rows[i]) && r.value[i] == RowToWord(rows[i], idFor(i))
  {
    if forall i :: 0 <= i < |rows| ==> HasCefrColumn(rows[i]) then
      var ws := seq(|rows|, i requires 0 <= i < |rows| => RowToWord(rows[i], idFor(i)));
      assert forall i :: 0 <= i < |rows| ==> IsFreshEntry(ws[i]) by {
        forall i | 0 <= i < |rows| ensures IsFreshEntry(ws[i]) {
          assert ws[i] == RowToWord(rows[i], idFor(i));
        }
      }
      Some(ws)
    else
      None
  }

  /**
   * The rows' words as `loadCSVWords` returns them: one per row in order, or
   * none at all when some row has no comma (its CEFR column is undefined, so
   * reading it throws and the `catch` returns the empty list).
   */
  function RowsToWords(rows: seq<string>, idFor: nat -> nat): (r: seq<Word>)
    ensures forall i :: 0 <= i < |r| ==> IsFreshEntry(r[i])
    ensures (exists i :: 0 <= i < |rows| && ',' !in rows[i]) ==> r == []
    ensures (forall i :: 0 <= i < |rows| ==> ',' in rows[i]) ==>
            |r| == |rows| && forall i :: 0 <= i < |r| ==> HasCefrColumn(rows[i]) && r[i] == RowToWord(rows[i], idFor(i))
  {
    assert forall i :: 0 <= i < |rows| ==> (HasCefrColumn(rows[i]) <==> ',' in rows[i]) by {
      forall i | 0 <= i < |rows| ensures HasCefrColumn(rows[i]) <==> ',' in rows[i] {
        CefrColumnIffComma(rows[i]);
      }
    }
    match ParseRows(rows, idFor)
    case Some(ws) => ws
    case None => []
  }

  /** The words of the CSV file: none when it could not be fetched, else those of its data lines. */
  function CsvWords(text: Option<string>, idFor: nat -> nat): (r: seq<Word>)
    ensures forall i :: 0 <= i < |r| ==> IsFreshEntry(r[i])
    ensures text.None? ==> r == []
    ensures text.Some? ==> r == RowsToWords(DataLines(text.value), idFor)
  {
    match text
    case None => []
    case Some(t) => RowsToWords(DataLines(t), idFor)
  }

  // ---------------------------------------------------------------------------
  // Merge: the insertion-ordered `Map` of the load procedure

  /** The merge's working state: the key-to-record map, its keys in insertion order, and the records to write back. */
  datatype MergeState = MergeState(table: map<string, Word>, order: seq<string>, toSave: seq<Word>)

  /** The keys of a list of words. */
  function KeysOf(ws: seq<Word>): set<string> {
    set w | w in ws :: Key(w)
  }

  /** `wordMap.set(k, w)`: a new key goes to the end of the iteration order, an old key keeps its place. */
  function Put(st: MergeState, k: string, w: Word): MergeState {
    st.(table := st.table[k := w], order := if k in st.table then st.order else st.order + [k])
  }

  /** The map seeded from the stored words, later records replacing earlier ones with the same key. */
  function SeedDb(db: seq<Word>): MergeState {
    if db == [] then MergeState(map[], [], [])
    else
      var w := db[|db| - 1];
      Put(SeedDb(db[..|db| - 1]), Key(w), w)
  }

  /** One CSV word: insert it when its key is new, otherwise update the level if it differs. */
  function CsvStep(st: MergeState, w: Word): MergeState {
    var k := Key(w);
    if k !in st.table then
      Put(st, k, w).(toSave := st.toSave + [w])
    else if w.level != st.table[k].level then
      var updated := st.table[k].(level := w.level, levelLabel := w.levelLabel);
      Put(st, k, updated).(toSave := st.toSave + [updated])
    else
      st
  }

  /** The CSV words applied in order. */
  function MergeCsv(st: MergeState, csv: seq<Word>): MergeState {
    if csv == [] then st
    else CsvStep(MergeCsv(st, csv[..|csv| - 1]), csv[|csv| - 1])
  }

  /** The complete merge of stored and CSV words. */
  function Merge(db: seq<Word>, csv: seq<Word>): MergeState {
    MergeCsv(SeedDb(db), csv)
  }

  /** The order lists every key of the table once, and each record sits under its own key. */
  ghost predicate WellFormed(st: MergeState) {
    && (forall i, j :: 0 <= i < j < |st.order| ==> st.order[i] != st.order[j])
    && (forall k :: k in st.table <==> k in st.order)
    && (forall k :: k in st.table ==> Key(st.table[k]) == k)
  }

  /** `Array.from(wordMap.values())`. */
  function AllWords(st: MergeState): (r: seq<Word>)
    requires WellFormed(st)
    ensures |r| == |st.table| == |st.order|
    ensures forall i :: 0 <= i < |r| ==> r[i] == st.table[st.order[i]] && Key(r[i]) == st.order[i]
    ensures forall i, j :: 0 <= i < j < |r| ==> Key(r[i]) != Key(r[j])
    ensures KeysOf(r) == st.table.Keys
  {
    DistinctCardinality(st.order, st.table.Keys);
    seq(|st.order|, i requires 0 <= i < |st.order| => st.table[st.order[i]])
  }

  lemma {:induction false} DistinctCardinality(s: seq<string>, keys: set<string>)
    requires forall i, j :: 0 <= i < j < |s| ==> s[i] != s[j]
    requires forall k :: k in keys <==> k in s
    ensures |keys| == |s|
  {
    if s != [] {
      var last := s[|s| - 1];
      var init := s[..|s| - 1];
      assert forall k :: k in keys - {last} <==> k in init by {
        forall k ensures k in keys - {last} <==> k in init {
          if k in init {
            var i :| 0 <= i < |init| && init[i] == k;
            assert s[i] == k;
          }
          if k in s && k != last {
            var i :| 0 <= i < |s| && s[i] == k;
            assert i < |s| - 1;
            assert init[i] == k;
          }
        }
      }
      DistinctCardinality(init, keys - {last});
    }
  }

  lemma PutWellFormed(st: MergeState, k: string, w: Word)
    requires WellFormed(st) && Key(w) == k
    ensures WellFormed(Put(st, k, w))
  {
  }

  lemma {:induction false} SeedWellFormed(db: seq<Word>)
    ensures WellFormed(SeedDb(db)) && SeedDb(db).toSave == []
  {
    if db != [] {
      SeedWellFormed(db[..|db| - 1]);
      var w := db[|db| - 1];
      PutWellFormed(SeedDb(db[..|db| - 1]), Key(w), w);
    }
  }

  lemma {:induction false} MergeCsvWellFormed(st: MergeState, csv: seq<Word>)
    requires WellFormed(st)
    ensures WellFormed(MergeCsv(st, csv))
  {
    if csv != [] {
      var p := MergeCsv(st, csv[..|csv| - 1]);
      MergeCsvWellFormed(st, csv[..|csv| - 1]);
      var w := csv[|csv| - 1];
      if Key(w) in p.table {
        PutWellFormed(p, Key(w), p.table[Key(w)].(level := w.level, levelLabel := w.levelLabel));
      } else {
        PutWellFormed(p, Key(w), w);
      }
    }
  }

  /** The merge always yields a well-formed map, so one record per lower-cased word. */
  lemma MergeWellFormed(db: seq<Word>, csv: seq<Word>)
    ensures WellFormed(Merge(db, csv))
  {
    SeedWellFormed(db);
    MergeCsvWellFormed(SeedDb(db), csv);
  }

  /**
   * The load procedure's merge: stored words first, then the CSV words,
   * returning the merged catalogue and the records to write back.
   */
  method MergeCatalogue(dbWords: seq<Word>, csvWords: seq<Word>) returns (allWords: seq<Word>, newWordsToSave: seq<Word>)
    ensures WellFormed(Merge(dbWords, csvWords))
    ensures allWords == AllWords(Merge(dbWords, csvWords))
    ensures newWordsToSave == Merge(dbWords, csvWords).toSave
  {
    var wordMap: map<string, Word> := map[];
    var order: seq<string> := [];
    for i := 0 to |dbWords|
      invariant MergeState(wordMap, order, []) == SeedDb(dbWords[..i])
    {
      var w := dbWords[i];
      var key := Lower(w.word);
      if key !in wordMap {
        order := order + [key];
      }
      wordMap := wordMap[key := w];
      assert dbWords[..i + 1][..i] == dbWords[..i];
    }
    assert dbWords[..|dbWords|] == dbWords;
    newWordsToSave := [];
    for i := 0 to |csvWords|
      invariant MergeState(wordMap, order, newWordsToSave) == MergeCsv(SeedDb(dbWords), csvWords[..i])
    {
      var w := csvWords[i];
      var key := Lower(w.word);
      assert csvWords[..i + 1][..i] == csvWords[..i];
      if key !in wordMap {
        wordMap := wordMap[key := w];
        order := order + [key];
        newWordsToSave := newWordsToSave + [w];
      } else {
        var existing := wordMap[key];
        if w.level != existing.level {
          var updated := existing.(level := w.level, levelLabel := w.levelLabel);
          wordMap := wordMap[key := updated];
          newWordsToSave := newWordsToSave + [updated];
        }
      }
    }
    assert csvWords[..|csvWords|] == csvWords;
    MergeWellFormed(dbWords, csvWords);
    allWords := seq(|order|, j requires 0 <= j < |order| => wordMap[order[j]]);
  }

  // ---------------------------------------------------------------------------
  // What the merge promises

  /** The last word of `ws` with key `k`: the stored record a duplicate-keyed store contributes. */
  function LastWithKey(ws: seq<Word>, k: string): (r: Option<Word>)
    ensures r.Some? <==> k in KeysOf(ws)
    ensures r.Some? ==> r.value in ws && Key(r.value) == k
  {
    if ws == [] then None
    else
      var w := ws[|ws| - 1];
      assert KeysOf(ws) == KeysOf(ws[..|ws| - 1]) + {Key(w)} by {
        SplitLast(ws);
      }
      if Key(w) == k then Some(w) else LastWithKey(ws[..|ws| - 1], k)
  }

  /** The first word of `ws` with key `k`: the CSV row that introduces a new word. */
  function FirstWithKey(ws: seq<Word>, k: string): (r: Option<Word>)
    ensures r.Some? <==> k in KeysOf(ws)
    ensures r.Some? ==> r.value in ws && Key(r.value) == k
  {
    if ws == [] then None
    else
      assert KeysOf(ws) == {Key(ws[0])} + KeysOf(ws[1..]) by {
        assert ws == [ws[0]] + ws[1..];
      }
      if Key(ws[0]) == k then Some(ws[0]) else FirstWithKey(ws[1..], k)
  }

  lemma {:induction false} FirstWithKeyAppend(ws: seq<Word>, w: Word, k: string)
    ensures FirstWithKey(ws + [w], k) ==
      if FirstWithKey(ws, k).Some? then FirstWithKey(ws, k)
      else if Key(w) == k then Some(w) else None
  {
    if ws != [] {
      assert (ws + [w])[1..] == ws[1..] + [w];
      FirstWithKeyAppend(ws[1..], w, k);
    }
  }

  lemma KeysOfAppend(ws: seq<Word>, w: Word)
    ensures KeysOf(ws + [w]) == KeysOf(ws) + {Key(w)}
  {
  }

  /** The record a key started from: the stored one, or else the first CSV row with that key. */
  function Origin(seed: map<string, Word>, csv: seq<Word>, k: string): Word
    requires k in seed || k in KeysOf(csv)
  {
    if k in seed then seed[k] else FirstWithKey(csv, k).value
  }

  /** Seeding keeps, for every key, the last stored record with that key. */
  lemma {:induction false} SeedTable(db: seq<Word>)
    ensures SeedDb(db).table.Keys == KeysOf(db)
    ensures forall k :: k in SeedDb(db).table ==> LastWithKey(db, k) == Some(SeedDb(db).table[k])
  {
    if db != [] {
      var init := db[..|db| - 1];
      SeedTable(init);
      SplitLast(db);
      KeysOfAppend(init, db[|db| - 1]);
    }
  }

  /** The CSV words add exactly their own keys. */
  lemma {:induction false} MergeCsvKeys(st0: MergeState, csv: seq<Word>)
    ensures MergeCsv(st0, csv).table.Keys == st0.table.Keys + KeysOf(csv)
  {
    if csv != [] {
      var init := csv[..|csv| - 1];
      MergeCsvKeys(st0, init);
      SplitLast(csv);
      KeysOfAppend(init, csv[|csv| - 1]);
      CsvStepKeys(MergeCsv(st0, init), csv[|csv| - 1]);
    }
  }

  lemma CsvStepKeys(st: MergeState, w: Word)
    ensures CsvStep(st, w).table.Keys == st.table.Keys + {Key(w)}
  {
  }

  /** `t` is `o` with at most its level (and level label) replaced. */
  predicate Relabelled(t: Word, o: Word) {
    t == o.(level := t.level, levelLabel := t.levelLabel)
  }

  /** What one CSV word does to the record under key `k`. */
  lemma CsvStepAt(st: MergeState, w: Word, k: string)
    ensures k in CsvStep(st, w).table <==> k in st.table || k == Key(w)
    ensures Key(w) != k && k in st.table ==> CsvStep(st, w).table[k] == st.table[k]
    ensures Key(w) == k && k !in st.table ==> CsvStep(st, w).table[k] == w
    ensures Key(w) == k && k in st.table && w.level == st.table[k].level ==> CsvStep(st, w).table[k] == st.table[k]
    ensures Key(w) == k && k in st.table && w.level != st.table[k].level ==>
      CsvStep(st, w).table[k] == st.table[k].(level := w.level, levelLabel := w.levelLabel)
  {
  }

  /** Whether one CSV word causes a write-back: its key is new, or its level differs from the record's. */
  predicate Writes(st: MergeState, w: Word) {
    Key(w) !in st.table || w.level != st.table[Key(w)].level
  }

  /** One CSV word appends its key's new record to the write-back list when it writes, and changes nothing otherwise. */
  lemma CsvStepSave(st: MergeState, w: Word)
    ensures Key(w) in CsvStep(st, w).table
    ensures Writes(st, w) ==> CsvStep(st, w).toSave == st.toSave + [CsvStep(st, w).table[Key(w)]]
    ensures !Writes(st, w) ==> CsvStep(st, w) == st
  {
  }

  lemma SuffixAppend<T>(a: seq<T>, x: T, n: nat)
    requires n <= |a|
    ensures (a + [x])[n..] == a[n..] + [x]
  {
  }

  /** Every CSV row with key `k` carries level `lv`. */
  predicate RowsAgree(csv: seq<Word>, k: string, lv: int) {
    forall j :: 0 <= j < |csv| && Key(csv[j]) == k ==> csv[j].level == lv
  }

  /**
   * The record a key ends with: its origin with at most the level changed;
   * the level is the last CSV row's for that key; and when every CSV row for
   * the key agrees with the origin's level, the origin is kept unchanged.
   */
  lemma MergeCsvRecord(st0: MergeState, csv: seq<Word>, k: string)
    requires k in st0.table || k in KeysOf(csv)
    ensures k in MergeCsv(st0, csv).table
    ensures Relabelled(MergeCsv(st0, csv).table[k], Origin(st0.table, csv, k))
    ensures k in KeysOf(csv) ==> MergeCsv(st0, csv).table[k].level == LastWithKey(csv, k).value.level
    ensures RowsAgree(csv, k, Origin(st0.table, csv, k).level) ==> MergeCsv(st0, csv).table[k] == Origin(st0.table, csv, k)
  {
    MergeCsvRelabels(st0, csv, k);
    if k in KeysOf(csv) {
      MergeCsvLastLevel(st0, csv, k);
    }
    if RowsAgree(csv, k, Origin(st0.table, csv, k).level) {
      MergeCsvKeepsAgreeing(st0, csv, k);
    }
  }

  /** A key's origin after one more CSV word: unchanged when the key already had one, the word itself otherwise. */
  lemma OriginAppend(seed: map<string, Word>, init: seq<Word>, w: Word, k: string)
    requires k in seed || k in KeysOf(init + [w])
    ensures k in seed || k in KeysOf(init) ==> Origin(seed, init + [w], k) == Origin(seed, init, k)
    ensures k !in seed && k !in KeysOf(init) ==> Key(w) == k && Origin(seed, init + [w], k) == w
  {
    KeysOfAppend(init, w);
    FirstWithKeyAppend(init, w, k);
  }

  lemma {:induction false} MergeCsvRelabels(st0: MergeState, csv: seq<Word>, k: string)
    requires k in st0.table || k in KeysOf(csv)
    ensures k in MergeCsv(st0, csv).table
    ensures Relabelled(MergeCsv(st0, csv).table[k], Origin(st0.table, csv, k))
  {
    if csv != [] {
      var init := csv[..|csv| - 1];
      var w := csv[|csv| - 1];
      SplitLast(csv);
      var p := MergeCsv(st0, init);
      MergeCsvKeys(st0, init);
      CsvStepAt(p, w, k);
      OriginAppend(st0.table, init, w, k);
      if k in st0.table || k in KeysOf(init) {
        MergeCsvRelabels(st0, init, k);
      }
    }
  }

  lemma {:induction false} MergeCsvLastLevel(st0: MergeState, csv: seq<Word>, k: string)
    requires k in KeysOf(csv)
    ensures k in MergeCsv(st0, csv).table
    ensures MergeCsv(st0, csv).table[k].level == LastWithKey(csv, k).value.level
  {
    var init := csv[..|csv| - 1];
    var w := csv[|csv| - 1];
    SplitLast(csv);
    KeysOfAppend(init, w);
    var p := MergeCsv(st0, init);
    MergeCsvKeys(st0, init);
    CsvStepAt(p, w, k);
    if Key(w) != k {
      MergeCsvLastLevel(st0, init, k);
    }
  }

  lemma {:induction false} MergeCsvKeepsAgreeing(st0: MergeState, csv: seq<Word>, k: string)
    requires k in st0.table || k in KeysOf(csv)
    requires RowsAgree(csv, k, Origin(st0.table, csv, k).level)
    ensures k in MergeCsv(st0, csv).table
    ensures MergeCsv(st0, csv).table[k] == Origin(st0.table, csv, k)
  {
    if csv != [] {
      var init := csv[..|csv| - 1];
      var w := csv[|csv| - 1];
      SplitLast(csv);
      var lv := Origin(st0.table, csv, k).level;
      RowsAgreeAppend(init, w, k, lv);
      var p := MergeCsv(st0, init);
      MergeCsvKeys(st0, init);
      CsvStepAt(p, w, k);
      OriginAppend(st0.table, init, w, k);
      if k in st0.table || k in KeysOf(init) {
        MergeCsvKeepsAgreeing(st0, init, k);
      }
    }
  }

  /** The write-back list only grows, keeping what it held. */
  lemma {:induction false} MergeCsvGrows(st0: MergeState, csv: seq<Word>)
    ensures |MergeCsv(st0, csv).toSave| >= |st0.toSave|
    ensures MergeCsv(st0, csv).toSave[..|st0.toSave|] == st0.toSave
  {
    if csv != [] {
      MergeCsvGrows(st0, csv[..|csv| - 1]);
    }
  }

  /**
   * The write-back list only grows, and it stays as it was exactly when every
   * CSV word is already present with the same level (then the map is untouched too).
   */
  lemma {:induction false} MergeCsvWrites(st0: MergeState, csv: seq<Word>)
    ensures |MergeCsv(st0, csv).toSave| >= |st0.toSave|
    ensures MergeCsv(st0, csv).toSave[..|st0.toSave|] == st0.toSave
    ensures MergeCsv(st0, csv).toSave == st0.toSave <==>
      forall j :: 0 <= j < |csv| ==> Key(csv[j]) in st0.table && csv[j].level == st0.table[Key(csv[j])].level
    ensures MergeCsv(st0, csv).toSave == st0.toSave ==> MergeCsv(st0, csv).table == st0.table
  {
    if csv != [] {
      var init := csv[..|csv| - 1];
      var w := csv[|csv| - 1];
      MergeCsvWrites(st0, init);
      var p := MergeCsv(st0, init);
      assert forall j :: 0 <= j < |init| ==> init[j] == csv[j];
      if p.toSave != st0.toSave {
        assert |p.toSave| > |st0.toSave|;
      }
    }
  }

  /**
   * Nothing is written back exactly when every CSV word is already stored
   * with the level of its last stored record; in particular re-reading an
   * unchanged list over an unchanged store writes nothing.
   */
  lemma NoWriteBackIff(db: seq<Word>, csv: seq<Word>)
    ensures Merge(db, csv).toSave == [] <==>
      forall j :: 0 <= j < |csv| ==>
        Key(csv[j]) in KeysOf(db) && csv[j].level == LastWithKey(db, Key(csv[j])).value.level
  {
    SeedTable(db);
    SeedWellFormed(db);
    MergeCsvWrites(SeedDb(db), csv);
  }

  /** The keys whose records the CSV words must write back: new keys, and stored keys some row disagrees with. */
  ghost function ChangedKeys(seed: map<string, Word>, csv: seq<Word>): set<string> {
    set k | k in KeysOf(csv) && (k !in seed || !RowsAgree(csv, k, seed[k].level))
  }

  lemma RowsAgreeAppend(csv: seq<Word>, w: Word, k: string, lv: int)
    ensures RowsAgree(csv + [w], k, lv) <==> RowsAgree(csv, k, lv) && (Key(w) == k ==> w.level == lv)
  {
    assert forall j :: 0 <= j < |csv| ==> (csv + [w])[j] == csv[j];
    assert (csv + [w])[|csv|] == w;
  }

  lemma ChangedKeysAppend(seed: map<string, Word>, csv: seq<Word>, w: Word)
    ensures ChangedKeys(seed, csv + [w]) ==
      ChangedKeys(seed, csv) + (if Key(w) !in seed || w.level != seed[Key(w)].level then {Key(w)} else {})
  {
    KeysOfAppend(csv, w);
    forall k | k in seed {
      RowsAgreeAppend(csv, w, k, seed[k].level);
    }
    forall k | k in KeysOf(csv) && k in seed && !RowsAgree(csv, k, seed[k].level)
      ensures !RowsAgree(csv + [w], k, seed[k].level)
    {
      RowsAgreeAppend(csv, w, k, seed[k].level);
    }
  }

  /** For a key not yet changed, the next CSV word writes exactly when it is new or disagrees with the stored level. */
  lemma StepWritesUnchangedKey(st0: MergeState, init: seq<Word>, w: Word)
    requires Key(w) !in ChangedKeys(st0.table, init)
    ensures Writes(MergeCsv(st0, init), w) <==> Key(w) !in st0.table || w.level != st0.table[Key(w)].level
  {
    var kw := Key(w);
    MergeCsvKeys(st0, init);
    if kw in st0.table {
      MergeCsvRecord(st0, init, kw);
    }
  }

  /** The write-back list names exactly the changed keys. */
  lemma {:induction false} MergeCsvWrittenKeys(st0: MergeState, csv: seq<Word>)
    requires WellFormed(st0)
    ensures |MergeCsv(st0, csv).toSave| >= |st0.toSave|
    ensures KeysOf(MergeCsv(st0, csv).toSave[|st0.toSave|..]) == ChangedKeys(st0.table, csv)
  {
    MergeCsvGrows(st0, csv);
    if csv == [] {
      assert MergeCsv(st0, csv).toSave[|st0.toSave|..] == [];
    } else {
      var init := csv[..|csv| - 1];
      var w := csv[|csv| - 1];
      var kw := Key(w);
      SplitLast(csv);
      MergeCsvWrittenKeys(st0, init);
      MergeCsvGrows(st0, init);
      MergeCsvWellFormed(st0, init);
      ChangedKeysAppend(st0.table, init, w);
      var p := MergeCsv(st0, init);
      var q := MergeCsv(st0, csv);
      assert q == CsvStep(p, w);
      var before := ChangedKeys(st0.table, init);
      if kw !in before {
        StepWritesUnchangedKey(st0, init, w);
      }
      CsvStepSave(p, w);
      var addedP := p.toSave[|st0.toSave|..];
      if Writes(p, w) {
        SuffixAppend(p.toSave, q.table[kw], |st0.toSave|);
        KeysOfAppend(addedP, q.table[kw]);
      } else {
        assert q == p;
      }
    }
  }

  /** The record one writing CSV word appends is its key's origin with at most the level changed. */
  lemma StepWrittenRecord(st0: MergeState, init: seq<Word>, w: Word)
    requires WellFormed(st0)
    requires Writes(MergeCsv(st0, init), w)
    ensures Key(w) in CsvStep(MergeCsv(st0, init), w).table
    ensures var t := CsvStep(MergeCsv(st0, init), w).table[Key(w)];
            Key(t) == Key(w) && Relabelled(t, Origin(st0.table, init + [w], Key(w)))
  {
    var kw := Key(w);
    var p := MergeCsv(st0, init);
    MergeCsvWellFormed(st0, init);
    MergeCsvKeys(st0, init);
    FirstWithKeyAppend(init, w, kw);
    KeysOfAppend(init, w);
    CsvStepAt(p, w, kw);
    if kw in p.table {
      MergeCsvRecord(st0, init, kw);
    }
  }

  /** Each written-back record is its key's origin with at most the level changed. */
  lemma {:induction false} MergeCsvWrittenRecords(st0: MergeState, csv: seq<Word>)
    requires WellFormed(st0)
    ensures |MergeCsv(st0, csv).toSave| >= |st0.toSave|
    ensures forall t :: t in MergeCsv(st0, csv).toSave[|st0.toSave|..] ==>
      Key(t) in KeysOf(csv) && Relabelled(t, Origin(st0.table, csv, Key(t)))
  {
    MergeCsvGrows(st0, csv);
    if csv == [] {
      assert MergeCsv(st0, csv).toSave[|st0.toSave|..] == [];
    } else {
      var init := csv[..|csv| - 1];
      var w := csv[|csv| - 1];
      var kw := Key(w);
      SplitLast(csv);
      KeysOfAppend(init, w);
      MergeCsvWrittenRecords(st0, init);
      MergeCsvGrows(st0, init);
      MergeCsvWellFormed(st0, init);
      MergeCsvKeys(st0, init);
      var p := MergeCsv(st0, init);
      var q := MergeCsv(st0, csv);
      assert q == CsvStep(p, w);
      var addedP := p.toSave[|st0.toSave|..];
      var added := q.toSave[|st0.toSave|..];
      CsvStepSave(p, w);
      if Writes(p, w) {
        StepWrittenRecord(st0, init, w);
        SuffixAppend(p.toSave, q.table[kw], |st0.toSave|);
        assert added == addedP + [q.table[kw]];
      } else {
        assert q == p;
      }
      forall t | t in added
        ensures Key(t) in KeysOf(csv) && Relabelled(t, Origin(st0.table, csv, Key(t)))
      {
        if t in addedP {
          OriginAppend(st0.table, init, w, Key(t));
        }
      }
    }
  }

  lemma LastWithKeyAppend(ws: seq<Word>, w: Word, k: string)
    ensures LastWithKey(ws + [w], k) == if Key(w) == k then Some(w) else LastWithKey(ws, k)
  {
    assert (ws + [w])[..|ws|] == ws;
  }

  /**
   * The write-back list ends, for every key it names, with the record the
   * table holds under that key, and every record it holds for a key has
   * that record's id: of several writes for one key the last is the one
   * that stays.
   */
  ghost predicate SavedLatest(st: MergeState) {
    forall t :: t in st.toSave ==>
      && Key(t) in st.table
      && st.table[Key(t)].id == t.id
      && LastWithKey(st.toSave, Key(t)) == Some(st.table[Key(t)])
  }

  lemma StepSavedLatest(st: MergeState, w: Word)
    requires WellFormed(st) && SavedLatest(st)
    ensures SavedLatest(CsvStep(st, w))
  {
    var k := Key(w);
    var q := CsvStep(st, w);
    CsvStepSave(st, w);
    if Writes(st, w) {
      var w' := q.table[k];
      CsvStepAt(st, w, k);
      assert Key(w') == k;
      forall t | t in q.toSave
        ensures Key(t) in q.table && q.table[Key(t)].id == t.id && LastWithKey(q.toSave, Key(t)) == Some(q.table[Key(t)])
      {
        LastWithKeyAppend(st.toSave, w', Key(t));
        if Key(t) != k {
          CsvStepAt(st, w, Key(t));
        }
      }
    }
  }

  lemma {:induction false} MergeCsvSavedLatest(st0: MergeState, csv: seq<Word>)
    requires WellFormed(st0) && SavedLatest(st0)
    ensures SavedLatest(MergeCsv(st0, csv))
  {
    if csv != [] {
      var init := csv[..|csv| - 1];
      MergeCsvSavedLatest(st0, init);
      MergeCsvWellFormed(st0, init);
      StepSavedLatest(MergeCsv(st0, init), csv[|csv| - 1]);
    }
  }

  /** The record a key starts the CSV pass with: the last stored record, or else the first CSV row. */
  function MergeOrigin(db: seq<Word>, csv: seq<Word>, k: string): Word
    requires k in KeysOf(db) || k in KeysOf(csv)
  {
    if k in KeysOf(db) then LastWithKey(db, k).value else FirstWithKey(csv, k).value
  }

  /**
   * The merged catalogue has one record per key of either source; each is
   * its origin with at most the level replaced (so the id, the enrichment,
   * the reveal flag, the image and the grok time of a stored word survive),
   * carries the level of the last CSV row for its key, and is exactly its
   * origin when no CSV row disagrees with the origin's level.
   */
  lemma MergeRecord(db: seq<Word>, csv: seq<Word>, k: string)
    ensures Merge(db, csv).table.Keys == KeysOf(db) + KeysOf(csv)
    ensures k in KeysOf(db) || k in KeysOf(csv) ==>
      var t := Merge(db, csv).table[k];
      && Relabelled(t, MergeOrigin(db, csv, k))
      && (k in KeysOf(csv) ==> t.level == LastWithKey(csv, k).value.level)
      && (RowsAgree(csv, k, MergeOrigin(db, csv, k).level) ==> t == MergeOrigin(db, csv, k))
  {
    SeedTable(db);
    MergeCsvKeys(SeedDb(db), csv);
    if k in KeysOf(db) || k in KeysOf(csv) {
      MergeCsvRecord(SeedDb(db), csv, k);
    }
  }

  /**
   * The records written back are exactly one per changed key: every key new
   * to the store, and every stored key some CSV row gives another level; each
   * is its origin with at most the level replaced.
   */
  lemma MergeWriteBack(db: seq<Word>, csv: seq<Word>)
    ensures KeysOf(Merge(db, csv).toSave) ==
      set k | k in KeysOf(csv) && (k !in KeysOf(db) || !RowsAgree(csv, k, LastWithKey(db, k).value.level))
    ensures forall t :: t in Merge(db, csv).toSave ==>
      Key(t) in KeysOf(csv) && Relabelled(t, MergeOrigin(db, csv, Key(t)))
  {
    SeedTable(db);
    SeedWellFormed(db);
    MergeCsvWrittenKeys(SeedDb(db), csv);
    MergeCsvWrittenRecords(SeedDb(db), csv);
    assert Merge(db, csv).toSave[0..] == Merge(db, csv).toSave;
  }

  /** Every element of `ws` with key `k` is `x`, and there is one: the last is `x`. */
  lemma {:induction false} LastWithKeyUniform(ws: seq<Word>, k: string, x: Word)
    requires k in KeysOf(ws)
    requires forall w :: w in ws && Key(w) == k ==> w == x
    ensures LastWithKey(ws, k) == Some(x)
  {
  }

  /**
   * Loading twice is idempotent: when the store holds the merged catalogue
   * (in any order) and the word list is read again with the same words and
   * levels, the second merge writes nothing back, provided the list never
   * gives one word two different levels.
   */
  lemma MergeIdempotent(db: seq<Word>, csv: seq<Word>, db2: seq<Word>, csv2: seq<Word>)
    requires forall i, j :: 0 <= i < |csv| && 0 <= j < |csv| && Key(csv[i]) == Key(csv[j]) ==> csv[i].level == csv[j].level
    requires |csv2| == |csv| && forall j :: 0 <= j < |csv| ==> Key(csv2[j]) == Key(csv[j]) && csv2[j].level == csv[j].level
    requires forall w :: w in db2 <==> w in Merge(db, csv).table.Values
    ensures Merge(db2, csv2).toSave == []
  {
    MergeWellFormed(db, csv);
    var m := Merge(db, csv);
    SeedTable(db);
    MergeCsvKeys(SeedDb(db), csv);
    forall j | 0 <= j < |csv2|
      ensures Key(csv2[j]) in KeysOf(db2) && csv2[j].level == LastWithKey(db2, Key(csv2[j])).value.level
    {
      var k := Key(csv[j]);
      assert k in KeysOf(csv);
      assert k in m.table;
      var x := m.table[k];
      assert x in db2;
      forall v | v in db2 && Key(v) == k ensures v == x {
        var k' :| k' in m.table && m.table[k'] == v;
      }
      LastWithKeyUniform(db2, k, x);
      MergeCsvRecord(SeedDb(db), csv, k);
      var l := LastWithKey(csv, k).value;
      var jl :| 0 <= jl < |csv| && csv[jl] == l;
    }
    NoWriteBackIff(db2, csv2);
  }
}
