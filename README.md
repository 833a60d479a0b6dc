# grokwords: review schedule and word catalogue, modelled in Dafny

grokwords is a vocabulary trainer. The user "groks" a word: an external
model supplies its part of speech, phonetic spelling and a definition with a
translation. From then on the word belongs to the review cohort of the day it
was first grokked. Each cohort comes due on days 0, 1, 3, 7, 15 and 30 after
that day. The browser database keeps only each word's latest completed
checkpoint.

This project models the logic that the two React components `App` (the main
page) and `Review` (the review page) embed:

- **Catalogue load** (`Catalogue`, `Store`, `AppModel.App.Mount`).
  - The word-list CSV becomes word records, with CEFR tags mapped to levels.
  - The stored words are merged with the CSV words by lower-cased text.
  - The merge writes back exactly the records it created or relabelled.
  - The `words` store is a map keyed by `id` and the `reviews` store a map keyed by `word`. `put` inserts or replaces.
- **Review table** (`Reviews`, `AppModel.App.SaveReview`).
  - A save reads the word's record, then puts the updated or new one. A carried-over reward is kept.
  - The in-memory list drops the word's old records and appends the new one.
  - Both sides realise a "latest checkpoint per word" table, and a save keeps the list a mirror of the store.
- **Enrichment** (`Enrichment`, `AppModel.App.HandleGrokWord`, `AppModel.App.HandleNoPOS`).
  - The comma-separated reply is checked for arity.
  - The definition is written with its translation.
  - The grok stamp is set once and never moved. Marking a word understood does not stamp it.
- **Schedule** (`Scheduler`).
  - Cohorts, their counts and their descending date order.
  - The floor-of-days count, the due checkpoints and the reviewed count.
  - The state of each checkpoint cell on both pages, and the reward total.
  - Two consequences of keeping only the latest checkpoint: a cohort is all reviewed at no more than one checkpoint, and moving one word on un-completes the checkpoint it left.
- **Main page state** (`AppModel.App`). Selecting a date toggles on the date alone. Revealing a word writes a review only on the hidden-to-revealed transition.
- **Review page state** (`ReviewPage.Page`).
  - Selection toggles on the (date, day) pair.
  - A reveal-all click pre-reveals the cohort.
  - Every toggle requests a save. The page hands that request back as a `ReviewWrite` value, because the save function belongs to its parent.
- **Browsing** (`Browse`). The word-list filter over level, status, prefix search and review date, and 100-word pages with clamped Prev/Next.
- **Image key words** (`Keywords`). The merge of an example's phrase and noun lines, with the helper labels stripped.

Inputs that the program reads from the outside world are parameters:
- the CSV text, or `None` when the fetch fails;
- the id of the i-th CSV word (`idFor`);
- the reply text of the external model;
- the current time as an ISO string for stamps, and in milliseconds for day counts;
- the parsed cohort date in milliseconds, or `None` when it does not parse;
- whether the database opens (`Database.reachable`).

## Model

| member | source | states |
|---|---|---|
| Records.DateKey | src/pages/Review.tsx:29 | The cohort date keeps the first ten characters of the time stamp with every `-` turned into `/`: the length is min(length, 10), no `-` remains, and every other character is kept. |
| Records.DateKeyIdempotent | src/App.tsx:1041 | A cohort date is its own cohort date, so comparing a selected date with a word's date key is stable. |
| Records.DateKeyOfIsoStamp | src/App.tsx:800 | Every stamp that starts with an ISO-8601 calendar date `YYYY-MM-DD` (any ten characters with dashes at positions 4 and 7 only) falls in the cohort `YYYY/MM/DD` of that day, whatever follows the date. |
| Records.GrokDate | src/App.tsx:1432 | A word has a cohort date exactly when it has a grok stamp, and the date is non-empty exactly when the stamp is. |
| Catalogue.LevelFromCefr | src/App.tsx:279-290 | B1/B2 give level 2 (Intermediate), C1/C2 give level 3 (Advanced), A1/A2 and every other tag give level 1 (Basic). |
| Catalogue.LevelIgnoresCase | src/App.tsx:280 | The level does not depend on how the tag is capitalised. |
| Catalogue.NonBlank | src/App.tsx:300 | The kept lines are exactly the non-blank ones and no more of them than there were lines. |
| Catalogue.NonBlankAppend | src/App.tsx:300 | The filter works line by line: filtering two runs of lines is filtering each run and concatenating, so the kept lines keep their order. |
| Catalogue.DataLines | src/App.tsx:300-303 | Blank lines are dropped and then the header is skipped: the non-blank lines are the header followed by exactly the data lines, and no lines at all give no data lines. |
| Catalogue.FirstSegment | src/App.tsx:309 | The text before the first `/` is a prefix of the field without `/`, ended by `/` or by the end of the field. |
| Catalogue.FirstSegmentIsFirstPiece | src/App.tsx:309 | That prefix is the first piece of splitting at `/`. |
| Catalogue.Headword | src/App.tsx:306-316 | The headword is the trimmed first `/` alternative and contains no `/`. |
| Catalogue.CefrColumnIffComma | src/App.tsx:306 | A row has a CEFR column exactly when it holds a comma. |
| Catalogue.RowToWord | src/App.tsx:305-328 | A CSV row gives a fresh entry under the given id: no enrichment, no grok stamp, not revealed, level 1 to 3, and no `/` or `,` in the word. |
| Catalogue.RowToWordFields | src/App.tsx:306-326 | The word is the trimmed first `/` alternative of column 1, the level follows column 2, and TOEFL and IELTS are columns 3 and 4 or `''` when the row is shorter. |
| Catalogue.ParseRows | src/App.tsx:305-331 | The rows map one-to-one and in order to their word records; if any row lacks a CEFR column the whole mapping fails. |
| Catalogue.RowsToWords | src/App.tsx:305-331 | One comma-less data line throws, so the load yields no words at all. Otherwise each data line gives its word record, in order. |
| Catalogue.CsvWords | src/App.tsx:292-304 | A failed fetch gives no words. Otherwise the words are those of the file's data lines: blank lines dropped, header skipped. |
| Catalogue.AllWords | src/App.tsx:373 | The merged list has one word per key, in the map's insertion order, each under its own lower-cased text. |
| Catalogue.SeedWellFormed | src/App.tsx:347-349 | Seeding from the stored words gives a well-formed map and nothing to write back. |
| Catalogue.SeedTable | src/App.tsx:347-349 | After seeding, each key holds the last stored word with that key. |
| Catalogue.MergeWellFormed | src/App.tsx:344-370 | The merge always yields one record per lower-cased word, each under its own key. |
| Catalogue.MergeCatalogue | src/App.tsx:343-373 | The two `forEach` loops compute the merged list and the write-back list of the merge functions. |
| Catalogue.MergeCsvKeys | src/App.tsx:354-370 | The CSV pass adds exactly the CSV words' keys to the map. |
| Catalogue.CsvStepAt | src/App.tsx:355-369 | One CSV word inserts itself under a new key, relabels the existing record when its level differs, and leaves it alone otherwise. |
| Catalogue.CsvStepSave | src/App.tsx:356-368 | One CSV word appends its key's new record to the write-back list exactly when it writes; otherwise nothing changes. |
| Catalogue.MergeCsvRecord | src/App.tsx:354-370 | After the CSV pass each key's record is its origin with at most the level replaced. It carries the level of the last CSV row for the key, and is unchanged when every row agrees with the origin's level. |
| Catalogue.MergeCsvWrites | src/App.tsx:352-370 | The write-back list only grows; it stays unchanged exactly when no CSV word writes, and then so does the map. |
| Catalogue.NoWriteBackIff | src/App.tsx:352-380 | Nothing is written back exactly when every CSV word is already stored with the level of the last stored record for its key. |
| Catalogue.MergeCsvWrittenKeys | src/App.tsx:352-370 | The keys written back are exactly the changed keys: new keys, and stored keys that some CSV row gives another level. |
| Catalogue.MergeCsvWrittenRecords | src/App.tsx:352-370 | Each written-back record is its key's origin with at most the level replaced. |
| Catalogue.MergeRecord | src/App.tsx:343-373 | The catalogue holds exactly the keys of both sources. A stored word keeps every field but its level and label, and a new CSV key enters as its first row. |
| Catalogue.MergeWriteBack | src/App.tsx:352-370 | The write-back list names exactly the inserted keys and the relabelled stored keys, each with its origin's other fields. |
| Catalogue.MergeCsvSavedLatest | src/App.tsx:351-369 | For every record the CSV pass writes back, the last write under its key is the record its key holds in the map, under the same id. |
| Catalogue.MergeIdempotent | src/App.tsx:335-380 | Reloading an unchanged list over the merged store writes nothing, when the list never gives one word two levels. |
| Store.PutAllAt | src/App.tsx:133-135 | After the batch of puts each id holds the last word put under it, and every other id keeps its record. |
| Store.PutAllKeyed | src/App.tsx:101 | Puts keep every word stored under its own id. |
| Store.Database.constructor | src/App.tsx:98-110 | A new database has both stores empty and keyed by their key paths. |
| Store.Database.SaveWord | src/App.tsx:115-124 | `put` stores the word under its id, or nothing changes when the database does not open. The reviews are untouched. |
| Store.Database.SaveWords | src/App.tsx:127-139 | The loop of puts gives the batch-put store, so a later word with the same id wins. |
| Store.InKeyOrder | src/App.tsx:171-186 | The `getAll` cursor lists every record of a store keyed by id once, as stored, in ascending id order. |
| Store.Database.LoadWords | src/App.tsx:171-186 | `getAll` returns every stored word exactly once, as stored, in ascending id order. It returns nothing when the database does not open. |
| Store.Database.SaveReview | src/App.tsx:142-159 | The get-then-put stores the upserted record, and reports success exactly when the database opens. |
| Store.Database.LoadReviews | src/App.tsx:188-202 | `getAll` returns every stored review once, as stored, so the list mirrors the store. |
| Reviews.Upserted | src/App.tsx:150-153 | The new record has the new day and date. An existing record keeps its word and reward; otherwise the record is `{word, day, date}` with no reward. |
| Reviews.Upsert | src/App.tsx:147-154 | The store gains the word's key and every other word's record is unchanged. |
| Reviews.UpsertRecord | src/App.tsx:148-154 | After a save the store stays keyed by word, and the word's record holds the new checkpoint and the reward it had before. |
| Reviews.UpsertLastWins | src/App.tsx:151-154 | A later save for the same word replaces an earlier one outright. |
| Reviews.UpsertCommutes | src/App.tsx:142-159 | Saves for different words do not interfere. |
| Reviews.Without | src/App.tsx:162 | The filter keeps exactly the records of other words. |
| Reviews.WithoutAppend | src/App.tsx:162 | Filtering distributes over concatenation. |
| Reviews.WithoutTwice | src/App.tsx:162 | Filtering the same word twice is filtering once. |
| Reviews.WithoutCommutes | src/App.tsx:162 | Filtering two words in either order gives the same list. |
| Reviews.ReplaceLatest | src/App.tsx:161-164 | After a save the list ends with the word's new record, which carries no reward. |
| Reviews.ReplaceLatestShape | src/App.tsx:161-164 | The word has exactly one record, the last. The other words' records are those before, in the same relative order. |
| Reviews.ReplaceLatestDistinct | src/App.tsx:161-164 | A list with one record per word keeps that property. |
| Reviews.ReplaceLatestListed | src/App.tsx:161-164 | After a save the listed words are the saved word and the words listed before. |
| Reviews.SaveKeepsMirror | src/App.tsx:142-164 | Saving to the store and then updating the list keeps the list a mirror of the store. |
| Reviews.CountAt | src/pages/Review.tsx:126 | The reviewed count of a checkpoint is at most the number of records. |
| Reviews.CountAtAppend | src/pages/Review.tsx:126 | The count is additive over concatenation. |
| Enrichment.ParseWordInfo | src/App.tsx:780-789 | A reply is accepted exactly when it has at least four comma fields. The part of speech and the phonetic spelling are then the first two fields trimmed, and the definition is the third field trimmed, a newline and the fourth field trimmed. |
| Enrichment.TooFewFields | src/App.tsx:780-782 | A reply with fewer than three commas, the empty reply among them, enriches nothing. |
| Enrichment.ParseWellFormedReply | src/App.tsx:779-789 | Any four comma-free fields joined by commas are accepted and give back those fields trimmed, with the definition and translation joined by a newline. |
| Enrichment.ParseSpacedReply | src/App.tsx:779-789 | A reply in the requested `pos, phonetic, definition, translation` layout, with a space after each comma, gives back exactly the four fields. |
| Enrichment.BlankFieldsParse | src/App.tsx:779-789 | A reply whose definition and translation fields are blank is accepted, and the definition it writes is a lone newline, which is blank. |
| Enrichment.ExtraFieldsIgnored | src/App.tsx:780-786 | Fields after the fourth do not change the outcome. |
| Enrichment.Enriched | src/App.tsx:795-801 | The three fields are replaced. The stamp is kept when present and set to `now` when absent. Every other field is unchanged. |
| Enrichment.ApplyWordInfo | src/App.tsx:780-803 | A rejected reply changes nothing. Otherwise words with that id are enriched and all other words are untouched. |
| Enrichment.MarkUnderstood | src/App.tsx:693-701 | The word's part of speech becomes `-` and nothing else changes; no grok stamp is set and the definition is kept. |
| Enrichment.FindById | src/App.tsx:702 | `find` returns the first word with the id, or nothing when no word has it. |
| Enrichment.StampsAreStable | src/App.tsx:792-803 | Neither enrichment nor marking as understood moves a stamped word to another cohort, and every word with a definition stays stamped. |
| Enrichment.ReplyStamps | src/App.tsx:800 | An accepted reply leaves its word stamped. |
| Scheduler.CohortDate | src/pages/Review.tsx:29 | A grokked word's date key is non-empty and equals its grok date. |
| Scheduler.GrokkedWords | src/pages/Review.tsx:22-25 | The grokked words are exactly those with a non-blank definition and a non-empty stamp. |
| Scheduler.Cohort | src/pages/Review.tsx:58-60 | A cohort is exactly the grokked words whose date key is that date. |
| Scheduler.CohortOfGrokked | src/pages/Review.tsx:42-44 | Filtering the grokked list by date gives the cohort, in list order. |
| Scheduler.CohortAppend | src/pages/Review.tsx:42-44 | Cohort selection distributes over concatenation, so it keeps list order. |
| Scheduler.CohortSingle | src/pages/Review.tsx:42-44 | A single word is its own cohort exactly when it is grokked on that date. |
| Scheduler.SelectedWords | src/pages/Review.tsx:40-45 | With no date selected the list is empty. Otherwise it is the selected date's cohort, in order. |
| Scheduler.Bump | src/pages/Review.tsx:30 | Counting one word adds one to its date's count only, adds the date if new, and keeps the dates distinct. |
| Scheduler.CountsByDate | src/pages/Review.tsx:27-33 | Dates are distinct, a date appears exactly when its cohort is non-empty, its count is the cohort size, and the counts sum to the number of grokked words. |
| Scheduler.CountsAreCohortSizes | src/pages/Review.tsx:27-33 | Each entry holds the size of its date's cohort, which is non-zero. |
| Scheduler.InsertDesc | src/pages/Review.tsx:36 | Inserting a new date into a descending list keeps it descending and adds exactly that entry. |
| Scheduler.SortedDates | src/pages/Review.tsx:35-38 | The sort returns the same entries in strictly descending date order. |
| Scheduler.TotalPermutation | src/pages/Review.tsx:35-38 | Reordering the entries keeps the total of the counts. |
| Scheduler.SortedDatesAreCohorts | src/App.tsx:1321-1327 | The review table has one row per non-empty cohort, newest first, each with its cohort's size, and the sizes add up to the number of grokked words. |
| Scheduler.DaysSince | src/App.tsx:1094-1099 | An unparseable date gives no day count. Otherwise the count is the whole days elapsed, rounded down. |
| Scheduler.DueCheckpoints | src/App.tsx:1101-1103 | A checkpoint is due exactly when the day count equals it, so at most one is due and none when the date does not parse. |
| Scheduler.ReviewedWords | src/pages/Review.tsx:126 | The reviewed words of a checkpoint are exactly the words of records with that date and day. |
| Scheduler.CountIsReviewedWords | src/pages/Review.tsx:126 | With one record per word, the reviewed count is the number of reviewed words. |
| Scheduler.CohortCountAt | src/pages/Review.tsx:126-127 | The cohort's reviewed count never exceeds the count of all records at the checkpoint, and equals it when every record of that date belongs to a cohort word. |
| Scheduler.CohortCountIsReviewedWords | src/pages/Review.tsx:126-127 | With one record per word, the cohort's reviewed count is the number of cohort words reviewed at the checkpoint. |
| Scheduler.AllReviewedIffAllLatest | src/pages/Review.tsx:126-127 | With one record per word, a cohort counts as all reviewed exactly when every cohort word has its latest record at that checkpoint; the count as written agrees when no other word has a record of that date. |
| Scheduler.AllReviewedAtMostOnce | src/pages/Review.tsx:126-127 | With one record per word, a non-empty cohort is all reviewed at no more than one checkpoint; the count as written agrees when no other word has a record of that date. |
| Scheduler.CountAtWithout | src/App.tsx:162 | Dropping a word's records lowers a checkpoint's count by one exactly when that word's record was at it. |
| Scheduler.ReviewedAfterReplace | src/App.tsx:161-164 | Saving a word at another checkpoint removes exactly that word from a checkpoint's reviewed words. |
| Scheduler.CountAfterMove | src/App.tsx:161-164 | With one record per word, saving a word reviewed at a checkpoint at another checkpoint lowers that checkpoint's count by exactly one. |
| Scheduler.MovingOnUncompletes | src/pages/Review.tsx:126-127 | Once one word of an all-reviewed cohort is saved at another checkpoint, the earlier checkpoint counts one cohort word fewer than the cohort; so does the count as written when no other word has a record of that date. |
| Scheduler.ReviewIconFor | src/pages/Review.tsx:124-153 | A cell is due exactly when the day count is its target. All reviewed means the count equals the cohort size. It is clickable when due or all reviewed, asks to reveal all when all reviewed and not due, and is active when its date and day are selected. |
| Scheduler.AppIconFor | src/App.tsx:1356-1380 | On the main page a cell is clickable only when due, and active when its date is selected and it is due. |
| Scheduler.ClickableOnBothPages | src/App.tsx:1378 | Every cell the main page lets one open, the review page does too. The review page also opens completed cells. |
| Scheduler.TotalReward | src/pages/Review.tsx:120-122 | A date whose records carry no reward, or reward 0, totals 0; non-negative rewards give a non-negative total. |
| Scheduler.TotalRewardAppend | src/pages/Review.tsx:120-122 | The reward total of a date is additive over concatenation. |
| Scheduler.SaveAddsNoReward | src/App.tsx:163 | The record a save appends carries no reward. A date's total after a save is what the other words' records carry. |
| Scheduler.Toggled | src/App.tsx:1423-1428 | A click flips the clicked id's membership in the reveal set and no other id's. |
| Scheduler.ToggleTwice | src/App.tsx:1423-1428 | Two clicks on the same word give back the reveal set. |
| Browse.FilteredWords | src/App.tsx:1011-1044 | The list is exactly the words that pass all four tests (level, status, prefix search, review date), and it is never longer. |
| Browse.FilteredAppend | src/App.tsx:1011 | Filtering distributes over concatenation, so the list keeps word order. |
| Browse.NoFilterListsAll | src/App.tsx:1011-1044 | With nothing selected and nothing typed, every word is listed in order. |
| Browse.FiltersCommute | src/App.tsx:1043 | Two filters applied in either order give the same list. |
| Browse.ReviewModeListsCohort | src/App.tsx:1025-1041 | In review mode with the grokked status selected, the list is exactly the selected date's cohort. |
| Browse.UnderstoodIsListed | src/App.tsx:1030-1032 | A word marked understood passes the understood status and fails the ungrokked one. |
| Browse.TotalPages | src/App.tsx:1063 | The page count is the ceiling of the count over 100. |
| Browse.Page | src/App.tsx:1064-1066 | Page p is the slice starting at (p-1)*100: a full 100 words while the list lasts, the tail on the last page, nothing past the end. |
| Browse.PageOfIndex | src/App.tsx:1063-1066 | Every word is on the page its position says, and that page is in range. |
| Browse.PagesCoverList | src/App.tsx:1063-1066 | The pages in order show the whole list exactly once. |
| Browse.Prev | src/App.tsx:1750 | Prev goes to page 1 or to the page before, whichever is later, so it never goes below page 1 nor above the current page. |
| Browse.Next | src/App.tsx:1769 | Next goes to the page after or to the last page, whichever is earlier. |
| Browse.ButtonsStayInRange | src/App.tsx:1750-1769 | From a page in range both buttons stay in range. Prev stays put only on the first page and otherwise goes back one; Next stays put only on the last page and otherwise goes on one. |
| Keywords.ExampleLine | src/App.tsx:931-932 | Line i of the example, trimmed, or the empty text past the last line. |
| Keywords.NonEmpty | src/App.tsx:935 | The kept pieces are exactly the non-empty ones. |
| Keywords.NounParts | src/App.tsx:934-936 | The nouns are non-empty, trimmed and free of commas. |
| Keywords.NewNouns | src/App.tsx:939-940 | The kept nouns are exactly those the phrase line does not mention, ignoring case. |
| Keywords.JoinCommaSnoc | src/App.tsx:941 | Appending one non-empty noun is joining it with `, `, or taking it alone when nothing came before. |
| Keywords.KeywordsAreJoined | src/App.tsx:938-943 | The merged key words are the phrase line, if not empty, followed by every noun the phrase line does not mention, joined by `, `. |
| Keywords.RepeatedNounAppendedTwice | src/App.tsx:939-942 | The test reads the phrase line, not the growing text, so a repeated new noun is appended twice. |
| Keywords.KnownNounsAddNothing | src/App.tsx:938-943 | A phrase line that names every noun is sent as it is. |
| Keywords.MergeKeywords | src/App.tsx:938-943 | The `forEach` loop computes the merged key words. |
| Keywords.StripLabel | src/App.tsx:946 | Stripping a label returns a suffix of the text. Without a case-insensitive label prefix the text is unchanged. With one, the label is gone, everything cut between the label and the result is white space, and the result does not start with white space. |
| Keywords.ImageKeywords | src/App.tsx:931-946 | Stripping the labels never lengthens the merged key words. |
| AppModel.StrayReviewCompletesCheckpoint | src/pages/Review.tsx:126-127 | A blank-definition word stamped with a one-word cohort is listed in review mode, and revealing it writes a review at the cohort's date. The checkpoint then shows as all reviewed although the cohort's word is not reviewed, while the cohort count stays 0. |
| AppModel.StrayReviewCompletesTwoCheckpoints | src/App.tsx:1430-1435 | After that stray review and a review of the cohort's own word at another checkpoint, both checkpoints show as all reviewed. |
| AppModel.BlankDefinitionStampsOutsideCohorts | src/App.tsx:789-800 | An enrichment whose definition is blank still stamps an unstamped word. The word joins no cohort, yet review mode still lists it under its date. |
| AppModel.AppSelect | src/App.tsx:1350-1355 | Clicking the selected date clears the selection whatever day is clicked; another date is selected with the clicked day. |
| AppModel.AppSelectTwice | src/App.tsx:1351 | Clicking the same date twice returns to no selection. |
| AppModel.ReviewDateFor | src/App.tsx:1431-1432 | The review date is the word's own date key when it is stamped, else the selected date, else the empty text. |
| AppModel.ReviewDateInReviewMode | src/App.tsx:1431-1433 | In review mode the review date is never empty. |
| AppModel.AppRevealWrite | src/App.tsx:1430-1435 | A review is written exactly when the word was hidden, review mode is on and a day is selected. The write carries the word, the day and the review date. |
| AppModel.RevealThenHideWritesOnce | src/App.tsx:1420-1436 | Revealing a word writes, hiding it again writes nothing, and the reveal set is restored. |
| AppModel.App.constructor | src/App.tsx:69-72 | The page starts with no selection, nothing revealed and an empty review table. |
| AppModel.App.MergeAndSave | src/App.tsx:343-380 | The shown list is the merge of the given stored words with the CSV words. Exactly the merge's write-back list is put, and reviews and selection are untouched. |
| AppModel.App.LoadAllData | src/App.tsx:335-380 | The stored words read are every stored word once, as stored, in ascending id order. The shown list is their merge with the file's words, and exactly the merge's write-back list is put. |
| AppModel.App.LoadReviewTable | src/App.tsx:384-387 | The in-memory review table mirrors the `reviews` store afterwards; the word list and selection are untouched. |
| AppModel.App.Mount | src/App.tsx:383-387 | Start-up reads every stored word once, as stored, in ascending id order; the list shows their merge with the file's words, the write-back is stored, the review store is unchanged and the in-memory table mirrors it. |
| AppModel.SavedStoreIsMerge | src/App.tsx:335-380 | After a load the store holds exactly the merged records, and two stored words with the same lower-cased text are the same record. |
| AppModel.SecondLoadWritesNothing | src/App.tsx:335-380 | Loading the same list again over the store the first load left writes nothing back. |
| AppModel.App.SaveReview | src/App.tsx:142-168 | The store gets the upsert and the list the filtered-and-appended record, both only when the write succeeds. Mirroring is preserved. |
| AppModel.App.HandleGrokWord | src/App.tsx:780-813 | The list becomes the enriched list and the enriched word is put, only for an accepted reply. Reviews and selection are untouched. |
| AppModel.App.HandleNoPOS | src/App.tsx:691-710 | The list becomes the marked list and the marked word is put. Reviews and selection are untouched. |
| AppModel.App.SelectDate | src/App.tsx:1350-1355 | The selection moves as the date toggle says and the reveal set is emptied. |
| AppModel.App.ToggleReveal | src/App.tsx:1420-1436 | The id is toggled, and the save happens exactly when a write is due. Hiding leaves the store and the review table unchanged. Mirroring is preserved. |
| ReviewPage.PageSelect | src/pages/Review.tsx:47-50 | Clicking the selected (date, day) pair clears both; any other click selects that pair. |
| ReviewPage.OtherDaySwitches | src/pages/Review.tsx:48 | Another day of the selected date switches the review page's selection, where the main page would clear it. |
| ReviewPage.CohortIds | src/pages/Review.tsx:58-61 | The pre-revealed ids are exactly the ids of the date's cohort. |
| ReviewPage.PageRevealWrite | src/pages/Review.tsx:227-228 | The requested save carries the word, the selected day, and the word's own date key or else the selected date. |
| ReviewPage.PagesAgreeOnReveal | src/pages/Review.tsx:219-229 | Under the same selection the main page writes only when revealing, and then the very save the review page requests. |
| ReviewPage.Page.constructor | src/pages/Review.tsx:18-20 | The review page starts with no selection and nothing revealed. |
| ReviewPage.Page.SelectDate | src/pages/Review.tsx:47-65 | The selection moves as the pair toggle says. The reveal set becomes the cohort's ids for a reveal-all click that leaves a selection, and is empty otherwise. |
| ReviewPage.Page.ToggleReveal | src/pages/Review.tsx:219-229 | The id is toggled and a save of the selected checkpoint is requested on every click, hiding included. |
| ReviewPage.RevealAllCoversList | src/pages/Review.tsx:40-61 | The ids a reveal-all click reveals are exactly the ids of the listed words. |

## Left out

- IndexedDB plumbing is not modelled: opening, transactions, request callbacks and the schema upgrade. A database that fails to open is the `reachable` flag; saves become no-ops and loads return nothing.
- The word load and the review load run concurrently in the source. `Mount` runs them one after the other.
- A put that fails after the database opened is not modelled.
- Calls to the external language and image models, the realtime voice session, audio conversion and speech synthesis are foreign I/O. The reply text is a parameter.
- The clock, `Date.parse` and the random part of generated ids are parameters. `now` and the parsed date are integers in milliseconds, and the stamp is a string.
- Word ids are natural numbers. The source's ids are floating-point sums of the clock, the row index and a random fraction.
- The regular-expression clean-up of generated example text is not modelled.
- Keywords.StripLabel: lower-cases ASCII letters only. JavaScript's case-insensitive match also folds other letters.
- Keywords.ImageKeywords: states only a length bound. The stripping is characterised by `StripLabel` alone.
- Text case mapping (`Lower`, `Upper`) is ASCII-only. That is exact for CEFR tags and the helper labels, but not for non-ASCII words in the prefix search, the key-word test or the merge key `Records.Key` (the lower-cased word text): the source merges "Éclair" with "éclair", the model keeps them apart.
- Scheduler.TotalReward: rewards are integers, so the non-finite rewards the source skips are represented only by a missing reward, which counts 0. Its own contract bounds the total by the sign of the rewards; `TotalRewardAppend` and `SaveAddsNoReward` state how saves change it.
- Store.Database.LoadReviews: `getAll` lists reviews in key order, but the model only states that each stored review appears once, in some order. `LoadWords` does state ascending id order.
- AppModel.AppSelect, ReviewPage.PageSelect: an empty date text is treated as a date and selected. The source's `nextDate ? day : null` would keep no day for it, but the table only offers cohort dates, which are never empty (`Scheduler.CohortDate`).
- AppModel.SavedStoreIsMerge, AppModel.SecondLoadWritesNothing: assume that the stored words have distinct lower-cased texts (true of an empty store, and kept by every load, which the first lemma states) and that the CSV words' ids are new to the store (the source builds them from the clock plus a random fraction). Stores that break either are not covered.
- The main page's `isRevealed` is read at render time. The model reads the reveal set at the click, which is the same unless two clicks land before a re-render.
- Rendering, styles, settings, sharing links and image download have no behaviour worth stating and are not modelled.
- The review page's `ReviewRecord` declares `reward` as a number, but records saved by the main page carry none. The model uses one record type with an optional reward.

## Findings

| source | as written | input that shows it | evidently intended | confidence | as-written member | corrected member |
|---|---|---|---|---|---|---|
| src/pages/Review.tsx:126-127 | The reviewed count of a checkpoint counts every record of that date and day, of any word, and compares it with the cohort size. | A word stamped at the same time as a one-word cohort but enriched with a blank definition: review mode lists it, revealing it saves a review at the cohort's date, and the checkpoint shows as all reviewed although the cohort's word was never reviewed. | Count only records of the cohort's words, so a checkpoint is all reviewed exactly when every cohort word is reviewed there. | not executed | AppModel.StrayReviewCompletesCheckpoint | Scheduler.CohortCountAt |
