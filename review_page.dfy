/**
 * The review page's own state: the selected (date, checkpoint) pair and the
 * set of revealed words, with its selection handler and the toggle of its
 * word list. The page receives the word list, the review table and the save
 * function from its parent; the toggle hands back the save it requests.
 */
module ReviewPage {
  import opened Wrappers
  import opened Records
  import opened Scheduler
  import opened AppModel

  /**
   * The review page's `handleSelectDate`: clicking the selected date and day
   * clears the selection; anything else selects the clicked date and day.
   */
  function PageSelect(selected: Selection, date: string, day: int): (r: Selection)
    ensures r.date.Some? <==> r.day.Some?
    ensures r.date.None? <==> selected == Selection(Some(date), Some(day))
    ensures r.date.Some? ==> r == Selection(Some(date), Some(day))
  {
    var nextDate := if selected.date == Some(date) && selected.day == Some(day) then None else Some(date);
    Selection(nextDate, if nextDate.Some? then Some(day) else None)
  }

  /**
   * Unlike the main page, clicking another checkpoint of the selected date
   * moves the selection to it rather than clearing it.
   */
  lemma OtherDaySwitches(date: string, d1: int, d2: int)
    requires d1 != d2
    ensures PageSelect(Selection(Some(date), Some(d1)), date, d2) == Selection(Some(date), Some(d2))
    ensures AppSelect(Some(date), date, d2) == Selection(None, None)
  {
  }

  /** The ids of the words of one cohort. */
  function CohortIds(words: seq<Word>, date: string): (r: set<nat>)
    ensures forall id :: id in r <==> exists w :: w in words && IsGrokked(w) && CohortDate(w) == date && w.id == id
  {
    set w | w in Cohort(words, date) :: w.id
  }

  /** The save the word list's `toggleReveal` requests: the clicked word, at the selected day, under its review date. */
  function PageRevealWrite(w: Word, date: string, day: int): (r: ReviewWrite)
    requires date != []
    ensures r.word == w.word && r.day == day && r.date != []
    ensures Truthy(w.grokkedAt) ==> r.date == DateKey(w.grokkedAt.value)
    ensures !Truthy(w.grokkedAt) ==> r.date == date
  {
    ReviewWrite(w.word, day, ReviewDateFor(w, Some(date)))
  }

  /**
   * Under the same selection the main page writes exactly on the clicks that
   * reveal a hidden word, and then the save the review page requests on
   * every click.
   */
  lemma PagesAgreeOnReveal(w: Word, revealed: set<nat>, date: string, day: int)
    requires date != []
    ensures AppRevealWrite(w, revealed, Some(date), Some(day)).Some? <==> w.id !in revealed
    ensures w.id !in revealed ==> AppRevealWrite(w, revealed, Some(date), Some(day)) == Some(PageRevealWrite(w, date, day))
  {
  }

  class Page {
    var selectedReviewDate: Option<string>
    var selectedReviewDay: Option<int>
    var revealedReviewIds: set<nat>

    constructor ()
      ensures selectedReviewDate == None && selectedReviewDay == None && revealedReviewIds == {}
    {
      selectedReviewDate := None;
      selectedReviewDay := None;
      revealedReviewIds := {};
    }

    /** The word list is shown: a date and a day are selected. */
    predicate ListShown()
      reads this
    {
      Truthy(selectedReviewDate) && selectedReviewDay.Some?
    }

    /**
     * A click on a checkpoint of `date`: the selection moves as `PageSelect`
     * says; the reveal set is emptied, or, when the click asks to reveal all
     * and leaves a selection, holds the whole cohort.
     */
    method SelectDate(words: seq<Word>, date: string, day: int, revealAll: bool)
      modifies this
      ensures Selection(selectedReviewDate, selectedReviewDay) ==
        PageSelect(Selection(old(selectedReviewDate), old(selectedReviewDay)), date, day)
      ensures revealedReviewIds == if selectedReviewDate.Some? && revealAll then CohortIds(words, date) else {}
    {
      var nextDate := if selectedReviewDate == Some(date) && selectedReviewDay == Some(day) then None else Some(date);
      selectedReviewDate := nextDate;
      selectedReviewDay := if nextDate.Some? then Some(day) else None;
      if nextDate.None? {
        revealedReviewIds := {};
        return;
      }
      if revealAll {
        revealedReviewIds := CohortIds(GrokkedWords(words), date);
        CohortOfGrokked(words, date);
      } else {
        revealedReviewIds := {};
      }
    }

    /**
     * `toggleReveal` of the word list: the word's id flips in the reveal set
     * and a save of the selected checkpoint is requested, on hiding as well
     * as on revealing.
     */
    method ToggleReveal(w: Word) returns (write: ReviewWrite)
      requires ListShown()
      modifies this
      ensures selectedReviewDate == old(selectedReviewDate) && selectedReviewDay == old(selectedReviewDay)
      ensures ListShown()
      ensures revealedReviewIds == Toggled(old(revealedReviewIds), w.id)
      ensures write == PageRevealWrite(w, selectedReviewDate.value, selectedReviewDay.value)
    {
      revealedReviewIds := Toggled(revealedReviewIds, w.id);
      var reviewDate := ReviewDateFor(w, selectedReviewDate);
      write := ReviewWrite(w.word, selectedReviewDay.value, reviewDate);
    }
  }

  /**
   * The whole cohort a reveal-all click shows is the cohort the word list
   * lists: the selected date's grokked words.
   */
  lemma RevealAllCoversList(words: seq<Word>, date: string)
    requires date != []
    ensures forall w :: w in SelectedWords(words, Some(date)) ==> w.id in CohortIds(words, date)
    ensures forall id :: id in CohortIds(words, date) ==> exists w :: w in SelectedWords(words, Some(date)) && w.id == id
  {
  }
}
