/**
 * Enriching a word from the assistant's reply: the reply
 * `part of speech, phonetic, definition, translation` fills the part of
 * speech, the phonetic spelling and a two-line definition, and stamps the
 * grok time unless the word already has one. Marking a word as understood
 * only sets its part of speech to `-`.
 */
module Enrichment {
  import opened Wrappers
  import opened Text
  import opened Records

  /** The fields the reply supplies. */
  datatype WordInfo = WordInfo(pos: string, phonetic: string, definition: string)

  /**
   * The reply's comma-separated, trimmed fields: with at least four, the
   * first two are the part of speech and the phonetic spelling and the
   * definition is the third and fourth joined by a newline; with fewer the
   * reply is rejected.
   */
  function ParseWordInfo(content: string): (r: Option<WordInfo>)
    ensures r.Some? <==> |SplitTrim(content, ',')| >= 4
    ensures r.Some? ==> ',' !in r.value.pos && ',' !in r.value.phonetic && Count(r.value.definition, '\n') >= 1
    ensures r.Some? ==> r.value == WordInfo(Trim(Split(content, ',')[0]), Trim(Split(content, ',')[1]),
                                            Trim(Split(content, ',')[2]) + "\n" + Trim(Split(content, ',')[3]))
  {
    var parts := SplitTrim(content, ',');
    if |parts| >= 4 then
      var d := parts[2] + "\n" + parts[3];
      assert d == parts[2] + ("\n" + parts[3]);
      CountAppend(parts[2], "\n" + parts[3], '\n');
      Some(WordInfo(parts[0], parts[1], d))
    else None
  }

  lemma {:induction false} CountAppend(a: string, b: string, c: char)
    ensures Count(a + b, c) == Count(a, c) + Count(b, c)
  {
    if |a| > 0 {
      CountAppend(a[1..], b, c);
      assert (a + b)[1..] == a[1..] + b;
    } else {
      assert a + b == b;
    }
  }

  /** A reply with fewer than three commas never enriches a word (the empty reply among them). */
  lemma TooFewFields(content: string)
    requires Count(content, ',') < 3
    ensures ParseWordInfo(content) == None
  {
    SplitCount(content, ',');
  }

  /**
   * A reply made of four comma-free fields gives back those fields with
   * the white space at their ends trimmed off, the last two joined by a
   * newline.
   */
  lemma ParseWellFormedReply(pos: string, phonetic: string, definition: string, translation: string)
    requires ',' !in pos && ',' !in phonetic && ',' !in definition && ',' !in translation
    ensures ParseWordInfo(Join([pos, phonetic, definition, translation], ','))
         == Some(WordInfo(Trim(pos), Trim(phonetic), Trim(definition) + "\n" + Trim(translation)))
  {
    var parts := [pos, phonetic, definition, translation];
    SplitJoin(parts, ',');
    var fs := SplitTrim(Join(parts, ','), ',');
    assert |fs| == 4;
    assert fs[0] == Trim(pos);
    assert fs[1] == Trim(phonetic);
    assert fs[2] == Trim(definition);
    assert fs[3] == Trim(translation);
  }

  /**
   * The reply exactly as the prompt asks for it, `pos, phonetic,
   * definition, translation` with a space after each comma, gives back the
   * four fields when they carry no comma and no white space at their ends.
   */
  lemma ParseSpacedReply(pos: string, phonetic: string, definition: string, translation: string)
    requires ',' !in pos && ',' !in phonetic && ',' !in definition && ',' !in translation
    requires Trim(pos) == pos && Trim(phonetic) == phonetic && Trim(definition) == definition && Trim(translation) == translation
    ensures ParseWordInfo(pos + ", " + phonetic + ", " + definition + ", " + translation)
         == Some(WordInfo(pos, phonetic, definition + "\n" + translation))
  {
    SpacedJoin(pos, phonetic, definition, translation);
    ParseWellFormedReply(pos, " " + phonetic, " " + definition, " " + translation);
    TrimLeadingSpace(phonetic);
    TrimLeadingSpace(definition);
    TrimLeadingSpace(translation);
  }

  lemma SpacedJoin(a: string, b: string, c: string, d: string)
    ensures a + ", " + b + ", " + c + ", " + d == Join([a, " " + b, " " + c, " " + d], ',')
  {
    assert Join([" " + d], ',') == " " + d;
    assert [" " + c, " " + d][1..] == [" " + d];
    assert Join([" " + c, " " + d], ',') == " " + c + [','] + (" " + d);
    assert [" " + b, " " + c, " " + d][1..] == [" " + c, " " + d];
    assert [a, " " + b, " " + c, " " + d][1..] == [" " + b, " " + c, " " + d];
  }

  /** One leading space makes no difference to the trimmed field. */
  lemma TrimLeadingSpace(x: string)
    ensures Trim(" " + x) == Trim(x)
  {
    assert (" " + x)[1..] == x;
    assert IsWhitespace((" " + x)[0]);
    assert TrimStart(" " + x) == TrimStart(x);
  }

  /**
   * A reply whose definition and translation fields are both blank is
   * accepted, and the definition it writes is a lone newline, which is blank.
   */
  lemma BlankFieldsParse(pos: string, phonetic: string, definition: string, translation: string)
    requires ',' !in pos && ',' !in phonetic && ',' !in definition && ',' !in translation
    requires IsBlank(definition) && IsBlank(translation)
    ensures ParseWordInfo(Join([pos, phonetic, definition, translation], ',')) == Some(WordInfo(Trim(pos), Trim(phonetic), "\n"))
    ensures IsBlank("\n")
  {
    ParseWellFormedReply(pos, phonetic, definition, translation);
    NewlineBetweenEmpty(Trim(definition), Trim(translation));
    NewlineIsBlank();
  }

  lemma NewlineBetweenEmpty(a: string, b: string)
    requires a == [] && b == []
    ensures a + "\n" + b == "\n"
  {
  }

  lemma NewlineIsBlank()
    ensures IsBlank("\n")
  {
    assert IsWhitespace('\n');
  }

  /** Fields after the fourth are ignored. */
  lemma ExtraFieldsIgnored(content: string, extra: string)
    requires |SplitTrim(content, ',')| >= 4
    ensures ParseWordInfo(content + [','] + extra) == ParseWordInfo(content)
  {
    SplitAppend(content, extra, ',');
    var a := Split(content, ',');
    var s := Split(content + [','] + extra, ',');
    assert forall i :: 0 <= i < |a| ==> s[i] == a[i];
  }

  /** One word after a successful reply: the three fields replaced, the grok stamp kept if present and set otherwise. */
  function Enriched(w: Word, info: WordInfo, now: string): (r: Word)
    ensures r.pos == info.pos && r.phonetic == info.phonetic && r.definition == info.definition
    ensures w.grokkedAt.Some? ==> r.grokkedAt == w.grokkedAt
    ensures w.grokkedAt.None? ==> r.grokkedAt == Some(now)
    ensures r.(pos := w.pos, phonetic := w.phonetic, definition := w.definition, grokkedAt := w.grokkedAt) == w
  {
    w.(pos := info.pos, phonetic := info.phonetic, definition := info.definition,
       grokkedAt := if w.grokkedAt.Some? then w.grokkedAt else Some(now))
  }

  /** The word list after the reply for word `id` arrives at time `now` (an ISO timestamp). */
  function ApplyWordInfo(words: seq<Word>, id: nat, content: string, now: string): (r: seq<Word>)
    ensures |r| == |words|
    ensures ParseWordInfo(content).None? ==> r == words
    ensures forall i :: 0 <= i < |words| && words[i].id != id ==> r[i] == words[i]
    ensures forall i :: 0 <= i < |words| && words[i].id == id && ParseWordInfo(content).Some? ==>
      r[i] == Enriched(words[i], ParseWordInfo(content).value, now)
  {
    match ParseWordInfo(content)
    case None => words
    case Some(info) => EnrichedAt(words, id, info, now)
  }

  /** Every word with this id enriched, the others as they were. */
  function EnrichedAt(words: seq<Word>, id: nat, info: WordInfo, now: string): (r: seq<Word>)
    ensures |r| == |words|
    ensures forall i :: 0 <= i < |words| ==> r[i] == if words[i].id == id then Enriched(words[i], info, now) else words[i]
  {
    seq(|words|, i requires 0 <= i < |words| => if words[i].id == id then Enriched(words[i], info, now) else words[i])
  }

  /** `handleNoPOS`: the word's part of speech becomes `-`, and nothing else changes (in particular no grok stamp). */
  function MarkUnderstood(words: seq<Word>, id: nat): (r: seq<Word>)
    ensures |r| == |words|
    ensures forall i :: 0 <= i < |words| ==> r[i].grokkedAt == words[i].grokkedAt && r[i].definition == words[i].definition
    ensures forall i :: 0 <= i < |words| ==> r[i] == if words[i].id == id then words[i].(pos := "-") else words[i]
  {
    seq(|words|, i requires 0 <= i < |words| => if words[i].id == id then words[i].(pos := "-") else words[i])
  }

  /** No word among the first `n` has this id. */
  predicate IdFreeBefore(ws: seq<Word>, id: nat, n: int) {
    forall j :: 0 <= j < n && j < |ws| ==> ws[j].id != id
  }

  /** `list.find(w => w.id === id)`: the first word with that id. */
  function FindById(ws: seq<Word>, id: nat): (r: Option<Word>)
    ensures r.None? <==> IdFreeBefore(ws, id, |ws|)
    ensures r.Some? ==> r.value.id == id && exists i :: 0 <= i < |ws| && ws[i] == r.value && IdFreeBefore(ws, id, i)
  {
    if ws == [] then None
    else if ws[0].id == id then
      assert IdFreeBefore(ws, id, 0);
      Some(ws[0])
    else
      var r := FindById(ws[1..], id);
      assert forall i :: 0 < i < |ws| ==> ws[i] == ws[1..][i - 1];
      if r.Some? then
        var i :| 0 <= i < |ws[1..]| && ws[1..][i] == r.value && IdFreeBefore(ws[1..], id, i);
        assert ws[i + 1] == r.value && IdFreeBefore(ws, id, i + 1);
        r
      else
        r
  }

  /** Every word with a non-blank definition carries a grok stamp. */
  predicate DefinedAreStamped(words: seq<Word>) {
    forall i :: 0 <= i < |words| && !IsBlank(words[i].definition) ==> words[i].grokkedAt.Some?
  }

  /**
   * Enrichment and marking as understood never move a word between review
   * cohorts: a stamp once set is never changed, so the word's review date is
   * fixed; and every word with a definition stays stamped.
   */
  lemma StampsAreStable(words: seq<Word>, id: nat, content: string, now: string)
    ensures var r := ApplyWordInfo(words, id, content, now);
            forall i :: 0 <= i < |words| && words[i].grokkedAt.Some? ==> GrokDate(r[i]) == GrokDate(words[i])
    ensures var r := MarkUnderstood(words, id);
            forall i :: 0 <= i < |words| ==> GrokDate(r[i]) == GrokDate(words[i])
    ensures DefinedAreStamped(words) ==> DefinedAreStamped(ApplyWordInfo(words, id, content, now))
    ensures DefinedAreStamped(words) ==> DefinedAreStamped(MarkUnderstood(words, id))
  {
    EnrichmentKeepsStamps(words, id, content, now);
    MarkingKeepsStamps(words, id);
  }

  lemma EnrichmentKeepsStamps(words: seq<Word>, id: nat, content: string, now: string)
    ensures var r := ApplyWordInfo(words, id, content, now);
            forall i :: 0 <= i < |words| && words[i].grokkedAt.Some? ==> GrokDate(r[i]) == GrokDate(words[i])
    ensures DefinedAreStamped(words) ==> DefinedAreStamped(ApplyWordInfo(words, id, content, now))
  {
  }

  lemma MarkingKeepsStamps(words: seq<Word>, id: nat)
    ensures var r := MarkUnderstood(words, id);
            forall i :: 0 <= i < |words| ==> GrokDate(r[i]) == GrokDate(words[i])
    ensures DefinedAreStamped(words) ==> DefinedAreStamped(MarkUnderstood(words, id))
  {
  }

  /** A successful reply stamps the word it is for. */
  lemma ReplyStamps(words: seq<Word>, id: nat, content: string, now: string)
    requires ParseWordInfo(content).Some?
    ensures var r := ApplyWordInfo(words, id, content, now);
            forall i :: 0 <= i < |words| && words[i].id == id ==> r[i].grokkedAt.Some?
  {
  }
}
