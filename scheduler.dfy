/**
 * The spaced-repetition schedule. Grokked words (a non-blank definition and
 * a grok stamp) form cohorts by the calendar day of their stamp; each cohort
 * is due for review on days 0, 1, 3, 7, 15 and 30 after that day, and the
 * review table keeps only each word's latest checkpoint.
 */
module Scheduler {
  import opened Wrappers
  import opened Text
  import opened Records
  import opened Reviews
  import opened Seqs

  // ---------------------------------------------------------------------------
  // Cohorts

  /** A word that belongs to a review cohort: a non-blank definition and a (non-empty) grok stamp. */
  predicate IsGrokked(w: Word) {
    !IsBlank(w.definition) && Truthy(w.grokkedAt)
  }

  /** The cohort date of a grokked word. */
  function CohortDate(w: Word): (r: string)
    requires IsGrokked(w)
    ensures r != [] && Some(r) == GrokDate(w)
  {
    DateKey(w.grokkedAt.value)
  }

  /** `words.filter(isGrokked)`. */
  function GrokkedWords(words: seq<Word>): (r: seq<Word>)
    ensures |r| <= |words|
    ensures forall w :: w in r <==> w in words && IsGrokked(w)
  {
    if words == [] then []
    else
      var last := words[|words| - 1];
      SplitLast(words);
      GrokkedWords(words[..|words| - 1]) + (if IsGrokked(last) then [last] else [])
  }

  /** The grokked words of one cohort date, in list order. */
  function Cohort(words: seq<Word>, date: string): (r: seq<Word>)
    ensures |r| <= |words|
    ensures forall w :: w in r <==> w in words && IsGrokked(w) && CohortDate(w) == date
  {
    if words == [] then []
    else
      var last := words[|words| - 1];
      SplitLast(words);
      Cohort(words[..|words| - 1], date) + (if IsGrokked(last) && CohortDate(last) == date then [last] else [])
  }

  /** A cohort is the grokked list with the other dates filtered out, so its order is the list order. */
  lemma {:induction false} CohortOfGrokked(words: seq<Word>, date: string)
    ensures Cohort(GrokkedWords(words), date) == Cohort(words, date)
  {
    if words != [] {
      var init := words[..|words| - 1];
      var last := words[|words| - 1];
      CohortOfGrokked(init, date);
      CohortAppend(GrokkedWords(init), if IsGrokked(last) then [last] else [], date);
      if IsGrokked(last) {
        CohortSingle(last, date);
      } else {
        assert GrokkedWords(init) + [] == GrokkedWords(init);
      }
    }
  }

  lemma {:induction false} CohortAppend(a: seq<Word>, b: seq<Word>, date: string)
    ensures Cohort(a + b, date) == Cohort(a, date) + Cohort(b, date)
  {
    if b == [] {
      assert a + b == a;
    } else {
      var init := b[..|b| - 1];
      var last := b[|b| - 1];
      var tail := if IsGrokked(last) && CohortDate(last) == date then [last] else [];
      CohortAppend(a, init, date);
      DropLastOfAppend(a, b);
      AppendAssoc(Cohort(a, date), Cohort(init, date), tail);
    }
  }

  lemma CohortSingle(w: Word, date: string)
    ensures Cohort([w], date) == if IsGrokked(w) && CohortDate(w) == date then [w] else []
  {
    assert [w][..0] == [];
  }

  /** `selectedWords`: nothing while no date is selected, else the selected date's cohort. */
  function SelectedWords(words: seq<Word>, selected: Option<string>): (r: seq<Word>)
    ensures !Truthy(selected) ==> r == []
    ensures Truthy(selected) ==> r == Cohort(GrokkedWords(words), selected.value) && r == Cohort(words, selected.value)
  {
    if !Truthy(selected) then []
    else
      CohortOfGrokked(words, selected.value);
      Cohort(GrokkedWords(words), selected.value)
  }

  // ---------------------------------------------------------------------------
  // Counts per date

  /** One `[date, count]` entry of the counts object. */
  datatype DateCount = DateCount(date: string, count: nat)

  /** Some entry has this date. */
  predicate HasDate(entries: seq<DateCount>, d: string) {
    exists e :: e in entries && e.date == d
  }

  /** No date has two entries. */
  predicate DistinctDates(entries: seq<DateCount>) {
    entries == [] || (!HasDate(entries[1..], entries[0].date) && DistinctDates(entries[1..]))
  }

  /** The sum of the counts. */
  function Total(entries: seq<DateCount>): nat {
    if entries == [] then 0 else entries[0].count + Total(entries[1..])
  }

  /** The count of a date: the counts of the entries with that date. */
  function CountOf(entries: seq<DateCount>, d: string): nat {
    if entries == [] then 0
    else (if entries[0].date == d then entries[0].count else 0) + CountOf(entries[1..], d)
  }

  /**
   * `acc[dateKey] = (acc[dateKey] || 0) + 1`: the entry of the date counts
   * one more, and a date without an entry gets a new one at the end (the
   * insertion order `Object.entries` reports).
   */
  function Bump(entries: seq<DateCount>, date: string): (r: seq<DateCount>)
    ensures DistinctDates(entries) ==> DistinctDates(r)
    ensures forall d :: HasDate(r, d) <==> HasDate(entries, d) || d == date
    ensures forall d :: CountOf(r, d) == CountOf(entries, d) + (if d == date then 1 else 0)
    ensures Total(r) == Total(entries) + 1
  {
    if entries == [] then
      assert [DateCount(date, 1)][1..] == [];
      [DateCount(date, 1)]
    else if entries[0].date == date then
      var r := [entries[0].(count := entries[0].count + 1)] + entries[1..];
      assert r[1..] == entries[1..];
      assert forall e :: e in entries <==> e == entries[0] || e in entries[1..];
      r
    else
      var rest := Bump(entries[1..], date);
      var r := [entries[0]] + rest;
      assert r[1..] == rest;
      assert forall e :: e in entries <==> e == entries[0] || e in entries[1..];
      assert forall e :: e in r <==> e == entries[0] || e in rest;
      assert forall d :: HasDate(r, d) <==> HasDate(entries, d) || d == date by {
        forall d ensures HasDate(r, d) <==> HasDate(entries, d) || d == date {
          if HasDate(entries[1..], d) || d == date {
            assert HasDate(rest, d);
            var e :| e in rest && e.date == d;
            assert e in r;
          }
          if HasDate(r, d) {
            var e :| e in r && e.date == d;
            if e != entries[0] {
              assert HasDate(rest, d);
            }
          }
        }
      }
      r
  }

  /** `countsByDate`, as the list of its entries in insertion order. */
  function CountsByDate(words: seq<Word>): (r: seq<DateCount>)
    ensures DistinctDates(r)
    ensures Total(r) == |GrokkedWords(words)|
    ensures forall d :: HasDate(r, d) <==> |Cohort(words, d)| > 0
    ensures forall d :: CountOf(r, d) == |Cohort(words, d)|
  {
    if words == [] then []
    else
      var init := words[..|words| - 1];
      var last := words[|words| - 1];
      if IsGrokked(last) then Bump(CountsByDate(init), CohortDate(last)) else CountsByDate(init)
  }

  /** With distinct dates, the count of a date is the count in its one entry. */
  lemma {:induction false} CountOfEntry(entries: seq<DateCount>, i: nat)
    requires DistinctDates(entries) && i < |entries|
    ensures CountOf(entries, entries[i].date) == entries[i].count
  {
    if i == 0 {
      CountOfAbsent(entries[1..], entries[0].date);
    } else {
      assert entries[i] in entries[1..];
      CountOfEntry(entries[1..], i - 1);
    }
  }

  lemma {:induction false} CountOfAbsent(entries: seq<DateCount>, d: string)
    requires !HasDate(entries, d)
    ensures CountOf(entries, d) == 0
  {
    if entries != [] {
      assert entries[0] in entries;
      assert forall e :: e in entries[1..] ==> e in entries;
      CountOfAbsent(entries[1..], d);
    }
  }

  /**
   * The counts object has one entry per date of a non-empty cohort, holding
   * that cohort's size.
   */
  lemma CountsAreCohortSizes(words: seq<Word>, i: nat)
    requires i < |CountsByDate(words)|
    ensures var e := CountsByDate(words)[i];
            e.count == |Cohort(words, e.date)| && e.count > 0
  {
    CountOfEntry(CountsByDate(words), i);
    assert CountsByDate(words)[i] in CountsByDate(words);
  }

  // ---------------------------------------------------------------------------
  // The dates in descending order

  /** Strictly descending dates, by JavaScript string comparison. */
  predicate Descending(entries: seq<DateCount>) {
    forall i, j :: 0 <= i < j < |entries| ==> Less(entries[j].date, entries[i].date)
  }

  /** A date above every date of a descending list can head it. */
  lemma PrependDescending(h: DateCount, rest: seq<DateCount>)
    requires Descending(rest)
    requires forall x :: x in rest ==> Less(x.date, h.date)
    ensures Descending([h] + rest)
  {
    var s := [h] + rest;
    forall i, j | 0 <= i < j < |s| ensures Less(s[j].date, s[i].date) {
      assert s[j] == rest[j - 1];
      if i == 0 {
        assert rest[j - 1] in rest;
      } else {
        assert s[i] == rest[i - 1];
      }
    }
  }

  /** In a descending list every later date is below the first. */
  lemma BelowHead(sorted: seq<DateCount>)
    requires Descending(sorted) && sorted != []
    ensures Descending(sorted[1..])
    ensures forall x :: x in sorted[1..] ==> Less(x.date, sorted[0].date)
  {
    forall x | x in sorted[1..] ensures Less(x.date, sorted[0].date) {
      var j :| 0 <= j < |sorted[1..]| && sorted[1..][j] == x;
      assert sorted[j + 1] == x;
    }
  }

  /** Insert one entry into a descending list before the first smaller date. */
  function InsertDesc(e: DateCount, sorted: seq<DateCount>): (r: seq<DateCount>)
    requires Descending(sorted) && !HasDate(sorted, e.date)
    ensures Descending(r)
    ensures multiset(r) == multiset(sorted) + multiset{e}
  {
    if sorted == [] then [e]
    else
      BelowHead(sorted);
      if Less(sorted[0].date, e.date) then
        assert forall x :: x in sorted ==> Less(x.date, e.date) by {
          forall x | x in sorted ensures Less(x.date, e.date) {
            if x != sorted[0] {
              assert x in sorted[1..] by {
                assert sorted == [sorted[0]] + sorted[1..];
              }
              LessTransitive(x.date, sorted[0].date, e.date);
            }
          }
        }
        PrependDescending(e, sorted);
        [e] + sorted
      else
        assert sorted[0] in sorted;
        LessTotal(sorted[0].date, e.date);
        assert !HasDate(sorted[1..], e.date) by {
          assert forall x :: x in sorted[1..] ==> x in sorted;
        }
        var rest := InsertDesc(e, sorted[1..]);
        assert forall x :: x in rest ==> Less(x.date, sorted[0].date) by {
          forall x | x in rest ensures Less(x.date, sorted[0].date) {
            assert x in multiset(rest);
          }
        }
        PrependDescending(sorted[0], rest);
        assert sorted == [sorted[0]] + sorted[1..];
        [sorted[0]] + rest
  }

  /**
   * `Object.entries(countsByDate).sort(...)` with the descending comparator:
   * the same entries, strictly descending by date.
   */
  function SortedDates(entries: seq<DateCount>): (r: seq<DateCount>)
    requires DistinctDates(entries)
    ensures Descending(r)
    ensures multiset(r) == multiset(entries)
  {
    if entries == [] then []
    else
      var rest := SortedDates(entries[1..]);
      HasDatePermutation(rest, entries[1..], entries[0].date);
      SplitFirst(entries);
      InsertDesc(entries[0], rest)
  }

  /** Entries with the same multiset have the same dates. */
  lemma HasDatePermutation(a: seq<DateCount>, b: seq<DateCount>, d: string)
    requires multiset(a) == multiset(b)
    ensures HasDate(a, d) <==> HasDate(b, d)
  {
    forall x | x in a ensures x in b {
      assert x in multiset(a);
    }
    forall x | x in b ensures x in a {
      assert x in multiset(b);
    }
  }

  lemma {:induction false} TotalAppend(a: seq<DateCount>, b: seq<DateCount>)
    ensures Total(a + b) == Total(a) + Total(b)
  {
    if a != [] {
      TotalAppend(a[1..], b);
      DropFirstOfAppend(a, b);
    } else {
      assert a + b == b;
    }
  }

  lemma {:induction false} TotalPermutation(a: seq<DateCount>, b: seq<DateCount>)
    requires multiset(a) == multiset(b)
    ensures Total(a) == Total(b)
    decreases |a|
  {
    if a != [] {
      var x := a[0];
      SplitFirst(a);
      assert x in multiset(b);
      var k :| 0 <= k < |b| && b[k] == x;
      var b' := b[..k] + b[k + 1..];
      RemoveAt(b, k);
      assert multiset(a[1..]) == multiset(b');
      TotalPermutation(a[1..], b');
      TotalRemoveAt(b, k);
    }
  }

  /** Taking one entry out of a list takes its count off the total. */
  lemma TotalRemoveAt(b: seq<DateCount>, k: nat)
    requires k < |b|
    ensures Total(b) == b[k].count + Total(b[..k] + b[k + 1..])
  {
    RemoveAt(b, k);
    TotalAppend(b[..k] + [b[k]], b[k + 1..]);
    TotalAppend(b[..k], [b[k]]);
    TotalAppend(b[..k], b[k + 1..]);
    assert Total([b[k]]) == b[k].count by {
      assert [b[k]][1..] == [];
    }
  }

  /**
   * The review table: one row per date of a non-empty cohort, newest first,
   * and the rows' counts add up to the number of grokked words.
   */
  lemma SortedDatesAreCohorts(words: seq<Word>)
    ensures var s := SortedDates(CountsByDate(words));
            && Descending(s)
            && (forall d :: HasDate(s, d) <==> |Cohort(words, d)| > 0)
            && (forall i :: 0 <= i < |s| ==> s[i].count == |Cohort(words, s[i].date)|)
            && Total(s) == |GrokkedWords(words)|
  {
    var c := CountsByDate(words);
    var s := SortedDates(c);
    assert forall e :: e in s <==> e in c by {
      forall e ensures e in s <==> e in c {
        assert e in s <==> e in multiset(s);
        assert e in c <==> e in multiset(c);
      }
    }
    forall i | 0 <= i < |s| ensures s[i].count == |Cohort(words, s[i].date)| {
      assert s[i] in c;
      var j :| 0 <= j < |c| && c[j] == s[i];
      CountsAreCohortSizes(words, j);
    }
    TotalPermutation(s, c);
  }

  // ---------------------------------------------------------------------------
  // Days since a cohort date, and the checkpoints

  /** Milliseconds in a day. */
  const MsPerDay := 86400000

  /**
   * Whole days from the cohort's parsed midnight to `now` (both in
   * milliseconds), rounded down; `None` when the date does not parse.
   */
  function DaysSince(now: int, parsed: Option<int>): (r: Option<int>)
    ensures r.Some? <==> parsed.Some?
    ensures r.Some? ==> r.value * MsPerDay <= now - parsed.value < r.value * MsPerDay + MsPerDay
  {
    match parsed
    case None => None
    case Some(p) => Some((now - p) / MsPerDay)
  }

  /** The review checkpoints, in days after the cohort date. */
  const Checkpoints: seq<int> := [0, 1, 3, 7, 15, 30]

  /** `daysSince === target`. */
  predicate IsDue(daysSince: Option<int>, target: int) {
    daysSince == Some(target)
  }

  /** The checkpoints of a cohort that are due: at most one, and none when the date does not parse. */
  function DueCheckpoints(daysSince: Option<int>): (r: seq<int>)
    ensures |r| <= 1
    ensures forall t :: t in r <==> t in Checkpoints && IsDue(daysSince, t)
  {
    if daysSince.Some? && daysSince.value in Checkpoints then [daysSince.value] else []
  }

  // ---------------------------------------------------------------------------
  // Reviewed counts under the latest-checkpoint table

  /** The words whose (latest) record is at checkpoint `day` of cohort `date`. */
  function ReviewedWords(records: seq<ReviewRecord>, date: string, day: int): (r: set<string>)
    ensures forall k :: k in r <==> exists i :: 0 <= i < |records| && records[i].word == k && records[i].date == date && records[i].day == day
  {
    if records == [] then {}
    else
      var rest := ReviewedWords(records[1..], date, day);
      assert forall i :: 1 <= i < |records| ==> records[i] == records[1..][i - 1];
      (if records[0].date == date && records[0].day == day then {records[0].word} else {}) + rest
  }

  /** With one record per word, the reviewed count is the number of reviewed words. */
  lemma {:induction false} CountIsReviewedWords(records: seq<ReviewRecord>, date: string, day: int)
    requires DistinctWords(records)
    ensures CountAt(records, date, day) == |ReviewedWords(records, date, day)|
  {
    if records != [] {
      CountIsReviewedWords(records[1..], date, day);
    }
  }

  /** The word texts of a list of words. */
  function TextsOf(ws: seq<Word>): (r: set<string>)
    ensures forall t :: t in r <==> exists i :: 0 <= i < |ws| && ws[i].word == t
  {
    if ws == [] then {}
    else
      assert forall i :: 1 <= i < |ws| ==> ws[i] == ws[1..][i - 1];
      {ws[0].word} + TextsOf(ws[1..])
  }

  /** No two words of the list share their text. */
  predicate DistinctTexts(ws: seq<Word>) {
    forall i, j :: 0 <= i < j < |ws| ==> ws[i].word != ws[j].word
  }

  lemma {:induction false} DistinctTextsCount(ws: seq<Word>)
    requires DistinctTexts(ws)
    ensures |TextsOf(ws)| == |ws|
  {
    if ws != [] {
      DistinctTextsCount(ws[1..]);
      assert ws[0].word !in TextsOf(ws[1..]);
    }
  }

  /**
   * Every record dated with the cohort's date is for a word of the cohort.
   * The application does not keep this: a stamped word whose definition is
   * blank is in no cohort, yet revealing it in review mode records a review
   * under its own date, which `CountAt` then counts with the cohort's.
   */
  predicate NoStrayReviews(records: seq<ReviewRecord>, texts: set<string>, date: string) {
    forall i :: 0 <= i < |records| && records[i].date == date ==> records[i].word in texts
  }

  /**
   * The reviewed count the checkpoint cells evidently intend: records at
   * checkpoint `day` of cohort `date` whose word is one of the cohort's
   * words `texts`.
   */
  function CohortCountAt(records: seq<ReviewRecord>, texts: set<string>, date: string, day: int): (n: nat)
    ensures n <= CountAt(records, date, day)
    ensures NoStrayReviews(records, texts, date) ==> n == CountAt(records, date, day)
  {
    if records == [] then 0
    else
      var rest := CohortCountAt(records[1..], texts, date, day);
      assert NoStrayReviews(records, texts, date) ==> NoStrayReviews(records[1..], texts, date) by {
        assert forall i :: 1 <= i < |records| ==> records[i] == records[1..][i - 1];
      }
      (if records[0].date == date && records[0].day == day && records[0].word in texts then 1 else 0) + rest
  }

  /** With one record per word, the cohort's count is the number of cohort words reviewed at that checkpoint. */
  lemma {:induction false} CohortCountIsReviewedWords(records: seq<ReviewRecord>, texts: set<string>, date: string, day: int)
    requires DistinctWords(records)
    ensures CohortCountAt(records, texts, date, day) == |ReviewedWords(records, date, day) * texts|
  {
    if records == [] {
      assert ReviewedWords(records, date, day) * texts == {};
    } else {
      CohortCountIsReviewedWords(records[1..], texts, date, day);
      FirstNotReviewedLater(records, date, day);
      CohortCountStep(records, texts, date, day);
    }
  }

  lemma CohortCountStep(records: seq<ReviewRecord>, texts: set<string>, date: string, day: int)
    requires records != [] && records[0].word !in ReviewedWords(records[1..], date, day)
    requires CohortCountAt(records[1..], texts, date, day) == |ReviewedWords(records[1..], date, day) * texts|
    ensures CohortCountAt(records, texts, date, day) == |ReviewedWords(records, date, day) * texts|
  {
    var w := records[0].word;
    var hit := records[0].date == date && records[0].day == day;
    ReviewedWordsHead(records, date, day);
    if hit {
      AddFreshAmong(w, ReviewedWords(records[1..], date, day), texts);
    }
  }

  lemma ReviewedWordsHead(records: seq<ReviewRecord>, date: string, day: int)
    requires records != []
    ensures ReviewedWords(records, date, day) ==
      (if records[0].date == date && records[0].day == day then {records[0].word} else {}) + ReviewedWords(records[1..], date, day)
  {
  }

  /** With one record per word, the first record's word is not among the words the later records review. */
  lemma FirstNotReviewedLater(records: seq<ReviewRecord>, date: string, day: int)
    requires DistinctWords(records) && records != []
    ensures records[0].word !in ReviewedWords(records[1..], date, day)
  {
    forall i | 0 <= i < |records[1..]|
      ensures records[1..][i].word != records[0].word
    {
      assert records[1..][i] == records[i + 1];
    }
  }

  lemma AddFreshAmong(x: string, rest: set<string>, texts: set<string>)
    requires x !in rest
    ensures |({x} + rest) * texts| == (if x in texts then 1 else 0) + |rest * texts|
  {
    if x in texts {
      assert ({x} + rest) * texts == {x} + rest * texts;
    } else {
      assert ({x} + rest) * texts == rest * texts;
    }
  }

  /**
   * Checkpoint `day` holds every word of the cohort exactly when every word
   * of the cohort has its latest record at that checkpoint; the count the
   * page shows, `CountAt`, agrees with this only when no stray record
   * shares the cohort's date.
   */
  lemma AllReviewedIffAllLatest(records: seq<ReviewRecord>, cohort: seq<Word>, date: string, day: int)
    requires DistinctWords(records) && DistinctTexts(cohort)
    ensures CohortCountAt(records, TextsOf(cohort), date, day) == |cohort| <==> TextsOf(cohort) <= ReviewedWords(records, date, day)
    ensures NoStrayReviews(records, TextsOf(cohort), date) ==>
      (CountAt(records, date, day) == |cohort| <==> TextsOf(cohort) <= ReviewedWords(records, date, day))
  {
    var reviewed := ReviewedWords(records, date, day);
    CohortCountIsReviewedWords(records, TextsOf(cohort), date, day);
    DistinctTextsCount(cohort);
    SubsetOfSameSize(reviewed * TextsOf(cohort), TextsOf(cohort));
  }

  lemma {:induction false} SubsetSize(a: set<string>, b: set<string>)
    requires a <= b
    ensures |a| <= |b|
  {
    if a != {} {
      var x :| x in a;
      SubsetSize(a - {x}, b - {x});
    }
  }

  lemma SubsetOfSameSize(a: set<string>, b: set<string>)
    requires a <= b
    ensures |a| == |b| <==> b <= a
  {
    if !(b <= a) {
      var t :| t in b && t !in a;
      SubsetSize(a, b - {t});
    } else {
      assert a == b;
    }
  }

  /**
   * A non-empty cohort holds all its words at no more than one checkpoint:
   * each word has a single latest record, so two checkpoints cannot both
   * hold every word. The page's own count keeps this only without stray
   * records.
   */
  lemma AllReviewedAtMostOnce(records: seq<ReviewRecord>, cohort: seq<Word>, date: string, d1: int, d2: int)
    requires DistinctWords(records) && DistinctTexts(cohort)
    requires |cohort| > 0 && d1 != d2
    ensures !(CohortCountAt(records, TextsOf(cohort), date, d1) == |cohort| && CohortCountAt(records, TextsOf(cohort), date, d2) == |cohort|)
    ensures NoStrayReviews(records, TextsOf(cohort), date) ==>
      !(CountAt(records, date, d1) == |cohort| && CountAt(records, date, d2) == |cohort|)
  {
    AllReviewedIffAllLatest(records, cohort, date, d1);
    AllReviewedIffAllLatest(records, cohort, date, d2);
    var w := cohort[0].word;
    assert w in TextsOf(cohort);
  }

  /** A save at another checkpoint takes the word out of the reviewed words of the checkpoint, and nothing else. */
  lemma ReviewedAfterReplace(records: seq<ReviewRecord>, word: string, newDay: int, newDate: string, date: string, day: int)
    requires newDay != day || newDate != date
    ensures ReviewedWords(ReplaceLatest(records, word, newDay, newDate), date, day) == ReviewedWords(records, date, day) - {word}
  {
    var r := ReplaceLatest(records, word, newDay, newDate);
    var w := Without(records, word);
    forall k | k in ReviewedWords(r, date, day)
      ensures k in ReviewedWords(records, date, day) && k != word
    {
      var i :| 0 <= i < |r| && r[i].word == k && r[i].date == date && r[i].day == day;
      assert i < |w| && r[i] == w[i];
      assert w[i] in w;
      var j :| 0 <= j < |records| && records[j] == w[i];
    }
    forall k | k in ReviewedWords(records, date, day) && k != word
      ensures k in ReviewedWords(r, date, day)
    {
      var j :| 0 <= j < |records| && records[j].word == k && records[j].date == date && records[j].day == day;
      assert records[j] in w;
      var i :| 0 <= i < |w| && w[i] == records[j];
      assert r[i] == w[i];
    }
  }

  lemma {:induction false} CountAtWithout(list: seq<ReviewRecord>, word: string, date: string, day: int)
    requires DistinctWords(list)
    ensures CountAt(Without(list, word), date, day) ==
      CountAt(list, date, day) - (if word in ReviewedWords(list, date, day) then 1 else 0)
  {
    if list != [] {
      CountAtWithout(list[1..], word, date, day);
      if list[0].word == word && word in ReviewedWords(list[1..], date, day) {
        var i :| 0 <= i < |list[1..]| && list[1..][i].word == word && list[1..][i].date == date && list[1..][i].day == day;
        assert list[i + 1].word == word;
      }
      if list[0].word != word {
        assert ([list[0]] + Without(list[1..], word))[1..] == Without(list[1..], word);
      }
    }
  }

  /**
   * Saving a word at another checkpoint takes it out of the count of the
   * checkpoint it was at: once any word of a cohort that was all reviewed
   * moves on, the earlier checkpoint is no longer all reviewed. The page's
   * own count agrees when no stray record shares the cohort's date.
   */
  lemma MovingOnUncompletes(records: seq<ReviewRecord>, cohort: seq<Word>, date: string, day: int, word: string, newDay: int, newDate: string)
    requires DistinctWords(records) && DistinctTexts(cohort)
    requires CohortCountAt(records, TextsOf(cohort), date, day) == |cohort|
    requires word in TextsOf(cohort) && (newDay != day || newDate != date)
    ensures CohortCountAt(ReplaceLatest(records, word, newDay, newDate), TextsOf(cohort), date, day) == |cohort| - 1
    ensures NoStrayReviews(records, TextsOf(cohort), date) ==>
      CountAt(records, date, day) == |cohort| && CountAt(ReplaceLatest(records, word, newDay, newDate), date, day) == |cohort| - 1
  {
    CohortCountAfterMove(records, cohort, date, day, word, newDay, newDate);
    AllReviewedIffAllLatest(records, cohort, date, day);
    CountAfterMove(records, word, newDay, newDate, date, day);
  }

  lemma CohortCountAfterMove(records: seq<ReviewRecord>, cohort: seq<Word>, date: string, day: int, word: string, newDay: int, newDate: string)
    requires DistinctWords(records) && DistinctTexts(cohort)
    requires CohortCountAt(records, TextsOf(cohort), date, day) == |cohort|
    requires word in TextsOf(cohort) && (newDay != day || newDate != date)
    ensures CohortCountAt(ReplaceLatest(records, word, newDay, newDate), TextsOf(cohort), date, day) == |cohort| - 1
  {
    var texts := TextsOf(cohort);
    var r := ReplaceLatest(records, word, newDay, newDate);
    AllReviewedIffAllLatest(records, cohort, date, day);
    ReplaceLatestDistinct(records, word, newDay, newDate);
    CohortCountIsReviewedWords(r, texts, date, day);
    ReviewedAfterReplace(records, word, newDay, newDate, date, day);
    DistinctTextsCount(cohort);
    assert (ReviewedWords(records, date, day) - {word}) * texts == texts - {word};
  }

  /** With one record per word, saving a reviewed word at another checkpoint lowers the checkpoint's count by one. */
  lemma CountAfterMove(records: seq<ReviewRecord>, word: string, newDay: int, newDate: string, date: string, day: int)
    requires DistinctWords(records) && word in ReviewedWords(records, date, day)
    requires newDay != day || newDate != date
    ensures CountAt(ReplaceLatest(records, word, newDay, newDate), date, day) == CountAt(records, date, day) - 1
  {
    CountAtWithout(records, word, date, day);
    var last := ReviewRecord(word, newDay, newDate, None);
    CountAtAppend(Without(records, word), [last], date, day);
    assert CountAt([last], date, day) == 0 by {
      assert [last][1..] == [];
    }
  }

  // ---------------------------------------------------------------------------
  // Checkpoint icons

  /** What one checkpoint cell of the review page shows and does. */
  datatype ReviewIcon = ReviewIcon(due: bool, reviewedCount: nat, allReviewed: bool, active: bool, clickable: bool, revealAll: bool)

  /** `renderIconFor` of the review page for checkpoint `target` of the cohort `date` of `count` words. */
  function ReviewIconFor(records: seq<ReviewRecord>, date: string, count: nat, daysSince: Option<int>,
                         selectedDate: Option<string>, selectedDay: Option<int>, target: int): (r: ReviewIcon)
    ensures r.due <==> daysSince == Some(target)
    ensures r.reviewedCount == CountAt(records, date, target)
    ensures r.allReviewed <==> r.reviewedCount == count
    ensures r.clickable <==> r.due || r.allReviewed
    ensures r.revealAll <==> r.allReviewed && !r.due
    ensures r.active <==> selectedDate == Some(date) && selectedDay == Some(target)
  {
    var due := IsDue(daysSince, target);
    var reviewed := CountAt(records, date, target);
    var all := reviewed == count;
    ReviewIcon(due, reviewed, all, selectedDate == Some(date) && selectedDay == Some(target), due || all, all && !due)
  }

  /** What one checkpoint cell of the main page's review table shows and does. */
  datatype AppIcon = AppIcon(due: bool, reviewedCount: nat, allReviewed: bool, active: bool, clickable: bool)

  /** `renderIconFor` of the main page: only a due checkpoint can be clicked, and it is active when its date is selected. */
  function AppIconFor(records: seq<ReviewRecord>, date: string, count: nat, daysSince: Option<int>,
                      selectedDate: Option<string>, target: int): (r: AppIcon)
    ensures r.due <==> daysSince == Some(target)
    ensures r.reviewedCount == CountAt(records, date, target)
    ensures r.allReviewed <==> r.reviewedCount == count
    ensures r.clickable <==> r.due
    ensures r.active <==> selectedDate == Some(date) && r.due
  {
    var due := IsDue(daysSince, target);
    var reviewed := CountAt(records, date, target);
    AppIcon(due, reviewed, reviewed == count, selectedDate == Some(date) && due, due)
  }

  /** Every checkpoint the main page lets one open, the review page does too; the review page also opens completed ones. */
  lemma ClickableOnBothPages(records: seq<ReviewRecord>, date: string, count: nat, daysSince: Option<int>,
                             selectedDate: Option<string>, selectedDay: Option<int>, target: int)
    ensures AppIconFor(records, date, count, daysSince, selectedDate, target).clickable ==>
      ReviewIconFor(records, date, count, daysSince, selectedDate, selectedDay, target).clickable
    ensures ReviewIconFor(records, date, count, daysSince, selectedDate, selectedDay, target).clickable <==>
      AppIconFor(records, date, count, daysSince, selectedDate, target).clickable ||
      AppIconFor(records, date, count, daysSince, selectedDate, target).allReviewed
  {
  }

  // ---------------------------------------------------------------------------
  // Rewards

  /** `totalRewardForDate`: the rewards of the records with that date, a missing reward counting 0. */
  function TotalReward(records: seq<ReviewRecord>, date: string): (r: int)
    ensures (forall i :: 0 <= i < |records| && records[i].date == date ==> records[i].reward.GetOr(0) == 0) ==> r == 0
    ensures (forall i :: 0 <= i < |records| && records[i].date == date ==> records[i].reward.GetOr(0) >= 0) ==> r >= 0
  {
    if records == [] then 0
    else
      assert forall i :: 1 <= i < |records| ==> records[i] == records[1..][i - 1];
      (if records[0].date == date then records[0].reward.GetOr(0) else 0) + TotalReward(records[1..], date)
  }

  lemma {:induction false} TotalRewardAppend(a: seq<ReviewRecord>, b: seq<ReviewRecord>, date: string)
    ensures TotalReward(a + b, date) == TotalReward(a, date) + TotalReward(b, date)
  {
    if a != [] {
      TotalRewardAppend(a[1..], b, date);
      DropFirstOfAppend(a, b);
    } else {
      assert a + b == b;
    }
  }

  /**
   * The record a save appends carries no reward, so after a save the date's
   * total is what the other words' records carry.
   */
  lemma SaveAddsNoReward(records: seq<ReviewRecord>, word: string, day: int, date: string, d: string)
    ensures TotalReward(ReplaceLatest(records, word, day, date), d) == TotalReward(Without(records, word), d)
  {
    var last := ReviewRecord(word, day, date, None);
    TotalRewardAppend(Without(records, word), [last], d);
    assert TotalReward([last], d) == 0 by {
      assert [last][1..] == [];
    }
  }

  // ---------------------------------------------------------------------------
  // The reveal set

  /** The reveal set after a click on word `id`: that id's membership flips and no other id changes. */
  function Toggled(revealed: set<nat>, id: nat): (r: set<nat>)
    ensures id in r <==> id !in revealed
    ensures forall x :: x != id ==> (x in r <==> x in revealed)
  {
    if id in revealed then revealed - {id} else revealed + {id}
  }

  /** Two clicks on the same word give back the reveal set. */
  lemma ToggleTwice(revealed: set<nat>, id: nat)
    ensures Toggled(Toggled(revealed, id), id) == revealed
  {
  }
}
