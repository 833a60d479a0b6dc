/**
 * The two persisted record shapes of the vocabulary application and the
 * small derivations every component shares: JavaScript truthiness of an
 * optional string, the catalogue key of a word and the cohort date of a
 * grok time stamp.
 */
module Records {
  import opened Wrappers
  import opened Text

  /** A vocabulary entry. Optional TypeScript fields are `Option`s. */
  datatype Word = Word(
    id: nat,
    word: string,
    level: int,
    levelLabel: string,
    pos: string,
    phonetic: string,
    definition: string,
    example: string,
    revealed: bool,
    imageUrl: Option<string>,
    grokkedAt: Option<string>,
    toefl: Option<string>,
    ielts: Option<string>)

  /** The latest review checkpoint completed for one word; `reward` is absent unless carried over. */
  datatype ReviewRecord = ReviewRecord(word: string, day: int, date: string, reward: Option<int>)

  /** JavaScript truthiness of an optional string: present and not empty. */
  predicate Truthy(s: Option<string>) {
    s.Some? && s.value != []
  }

  /** The key words are merged by: the word text lower-cased. */
  function Key(w: Word): string {
    Lower(w.word)
  }

  /** The cohort date of a time stamp, `iso.slice(0, 10).replace(/-/g, '/')`. */
  function DateKey(iso: string): (r: string)
    ensures |r| == (if |iso| < 10 then |iso| else 10) && '-' !in r
    ensures forall i :: 0 <= i < |r| ==> r[i] == (if iso[i] == '-' then '/' else iso[i])
  {
    ReplaceChar(Prefix(iso, 10), '-', '/')
  }

  /** A cohort date is its own cohort date: the conversion is idempotent. */
  lemma DateKeyIdempotent(iso: string)
    ensures DateKey(DateKey(iso)) == DateKey(iso)
  {
  }

  /**
   * An ISO-8601 time stamp `YYYY-MM-DDThh:mm:ss.sssZ` falls in the cohort of
   * its calendar day: year, month and day, separated by slashes.
   */
  lemma DateKeyOfIsoStamp(iso: string)
    requires |iso| >= 10 && iso[4] == '-' && iso[7] == '-'
    requires forall i :: 0 <= i < 10 && i != 4 && i != 7 ==> iso[i] != '-'
    ensures DateKey(iso) == iso[..4] + "/" + iso[5..7] + "/" + iso[8..10]
  {
    var r := DateKey(iso);
    var e := iso[..4] + "/" + iso[5..7] + "/" + iso[8..10];
    assert |e| == 10;
    assert forall i :: 0 <= i < 10 ==> r[i] == e[i];
  }

  /** `w.grokkedAt?.slice(0, 10).replace(/-/g, '/')`: the cohort date of a word, if it has a grok stamp. */
  function GrokDate(w: Word): (r: Option<string>)
    ensures r.Some? <==> w.grokkedAt.Some?
    ensures Truthy(r) <==> Truthy(w.grokkedAt)
  {
    match w.grokkedAt
    case Some(iso) => Some(DateKey(iso))
    case None => None
  }
}
