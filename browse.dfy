/**
 * The browsing list of the main page: the conjunctive filter over level,
 * grok status, prefix search and review date, and the 100-word pages with
 * their clamped Prev/Next buttons.
 */
module Browse {
  import opened Wrappers
  import opened Text
  import opened Records
  import opened Scheduler
  import opened Seqs

  /** The level selector: every word, the TOEFL or IELTS flag, or one numeric level. */
  datatype LevelChoice = AllLevels | Toefl | Ielts | LevelIs(n: int)

  /** The grok-status selector. */
  datatype GrokStatus = AllStatus | Grokked | Understood | Ungrokked

  /** The four filter inputs of the word list. */
  datatype Filter = Filter(level: LevelChoice, status: GrokStatus, query: string, reviewDate: Option<string>)

  /** The filter the page starts with: nothing selected, nothing typed. */
  const NoFilter := Filter(AllLevels, AllStatus, [], None)

  /** An exam flag is set when its trimmed text is `1`; a missing flag reads as the empty text. */
  predicate Flagged(flag: Option<string>) {
    Trim(flag.GetOr([])) == "1"
  }

  predicate LevelMatch(w: Word, c: LevelChoice) {
    match c
    case AllLevels => true
    case Toefl => Flagged(w.toefl)
    case Ielts => Flagged(w.ielts)
    case LevelIs(n) => w.level == n
  }

  predicate StatusMatch(w: Word, s: GrokStatus) {
    match s
    case AllStatus => true
    case Grokked => !IsBlank(w.definition)
    case Understood => Trim(w.pos) == "-"
    case Ungrokked => IsBlank(w.pos)
  }

  /** Case-insensitive prefix search; the empty query matches everything. */
  predicate SearchMatch(w: Word, query: string) {
    query == [] || StartsWith(Lower(w.word), Lower(query))
  }

  /** With a review date selected, only words stamped on that day. */
  predicate ReviewDateMatch(w: Word, reviewDate: Option<string>) {
    !Truthy(reviewDate) || (Truthy(w.grokkedAt) && DateKey(w.grokkedAt.value) == reviewDate.value)
  }

  /** The filter predicate: all four conditions hold. */
  predicate Matches(w: Word, f: Filter) {
    LevelMatch(w, f.level) && StatusMatch(w, f.status) && SearchMatch(w, f.query) && ReviewDateMatch(w, f.reviewDate)
  }

  /** `filteredWords`: the matching words, in list order. */
  function FilteredWords(words: seq<Word>, f: Filter): (r: seq<Word>)
    ensures |r| <= |words|
    ensures forall w :: w in r <==> w in words && Matches(w, f)
  {
    if words == [] then []
    else
      var last := words[|words| - 1];
      SplitLast(words);
      FilteredWords(words[..|words| - 1], f) + (if Matches(last, f) then [last] else [])
  }

  lemma {:induction false} FilteredAppend(a: seq<Word>, b: seq<Word>, f: Filter)
    ensures FilteredWords(a + b, f) == FilteredWords(a, f) + FilteredWords(b, f)
  {
    if b == [] {
      assert a + b == a;
    } else {
      var init := b[..|b| - 1];
      var last := b[|b| - 1];
      var tail := if Matches(last, f) then [last] else [];
      FilteredAppend(a, init, f);
      DropLastOfAppend(a, b);
      AppendAssoc(FilteredWords(a, f), FilteredWords(init, f), tail);
    }
  }

  /** With nothing selected and nothing typed, every word is listed, in order. */
  lemma {:induction false} NoFilterListsAll(words: seq<Word>)
    ensures FilteredWords(words, NoFilter) == words
  {
    if words != [] {
      NoFilterListsAll(words[..|words| - 1]);
      SplitLast(words);
    }
  }

  /** Filters compose in either order: a filter only drops words and never reorders them. */
  lemma {:induction false} FiltersCommute(words: seq<Word>, f: Filter, g: Filter)
    ensures FilteredWords(FilteredWords(words, f), g) == FilteredWords(FilteredWords(words, g), f)
  {
    if words != [] {
      var init := words[..|words| - 1];
      var last := words[|words| - 1];
      FiltersCommute(init, f, g);
      FilteredAppend(FilteredWords(init, f), if Matches(last, f) then [last] else [], g);
      FilteredAppend(FilteredWords(init, g), if Matches(last, g) then [last] else [], f);
      assert [last][..0] == [];
    }
  }

  /**
   * In review mode with the grokked status selected, the list is exactly the
   * selected date's review cohort.
   */
  lemma {:induction false} ReviewModeListsCohort(words: seq<Word>, date: string)
    requires date != []
    ensures FilteredWords(words, Filter(AllLevels, Grokked, [], Some(date))) == Cohort(words, date)
  {
    if words != [] {
      ReviewModeListsCohort(words[..|words| - 1], date);
    }
  }

  /** Marking a word understood moves it from the ungrokked list to the understood one. */
  lemma UnderstoodIsListed(w: Word)
    ensures StatusMatch(w.(pos := "-"), Understood)
    ensures !StatusMatch(w.(pos := "-"), Ungrokked)
  {
    assert "-"[0] == '-';
  }

  // ---------------------------------------------------------------------------
  // Pages

  /** Words per page. */
  const PageSize := 100

  /** `Math.ceil(n / itemsPerPage)`. */
  function TotalPages(n: nat): (r: nat)
    ensures n <= r * PageSize && (n > 0 ==> (r - 1) * PageSize < n) && (n == 0 ==> r == 0)
  {
    (n + PageSize - 1) / PageSize
  }

  /** `filteredWords.slice((page - 1) * 100, page * 100)`, the slice clamped to the list. */
  function Page(list: seq<Word>, page: nat): (r: seq<Word>)
    requires page >= 1
    ensures |r| <= PageSize
    ensures (page - 1) * PageSize < |list| <==> |r| > 0
    ensures |r| > 0 ==> (page - 1) * PageSize + |r| <= |list|
    ensures page * PageSize <= |list| ==> |r| == PageSize
    ensures (page - 1) * PageSize < |list| < page * PageSize ==> (page - 1) * PageSize + |r| == |list|
    ensures forall i :: 0 <= i < |r| ==> r[i] == list[(page - 1) * PageSize + i]
  {
    var start := (page - 1) * PageSize;
    var end := page * PageSize;
    if start >= |list| then [] else if end >= |list| then list[start..] else list[start..end]
  }

  /** Every word is on exactly one page: the one its position says. */
  lemma PageOfIndex(list: seq<Word>, i: nat)
    requires i < |list|
    ensures 1 <= i / PageSize + 1 <= TotalPages(|list|)
    ensures Page(list, i / PageSize + 1)[i % PageSize] == list[i]
  {
  }

  /** The pages up to `k`, one after the other. */
  function Pages(list: seq<Word>, k: nat): seq<Word> {
    if k == 0 then [] else Pages(list, k - 1) + Page(list, k)
  }

  /** Paging through every page shows the whole list once, in order. */
  lemma PagesCoverList(list: seq<Word>)
    ensures Pages(list, TotalPages(|list|)) == list
  {
    PagesPrefix(list, TotalPages(|list|));
  }

  lemma {:induction false} PagesPrefix(list: seq<Word>, k: nat)
    ensures Pages(list, k) == list[..if k * PageSize <= |list| then k * PageSize else |list|]
  {
    if k > 0 {
      PagesPrefix(list, k - 1);
    }
  }

  /** The Prev button: `Math.max(1, page - 1)`. */
  function Prev(page: nat): (r: nat)
    ensures r >= 1 && (page >= 1 ==> r <= page)
    ensures r >= page - 1 && (r == 1 || r == page - 1)
  {
    if page - 1 > 1 then page - 1 else 1
  }

  /** The Next button: `Math.min(totalPages, page + 1)`. */
  function Next(page: nat, totalPages: nat): (r: nat)
    ensures r <= totalPages && r <= page + 1
    ensures r == totalPages || r == page + 1
  {
    if page + 1 < totalPages then page + 1 else totalPages
  }

  /** From a page in range, Prev and Next stay in range; Prev stops at the first page and Next at the last. */
  lemma ButtonsStayInRange(page: nat, totalPages: nat)
    requires 1 <= page <= totalPages
    ensures 1 <= Prev(page) <= totalPages && 1 <= Next(page, totalPages) <= totalPages
    ensures Prev(page) == page <==> page == 1
    ensures Next(page, totalPages) == page <==> page == totalPages
    ensures page >= 2 ==> Prev(page) == page - 1
    ensures page < totalPages ==> Next(page, totalPages) == page + 1
  {
  }
}
