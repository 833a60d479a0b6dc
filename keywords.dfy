/**
 * The key words sent with an image request: the phrase line of a word's
 * example text, extended by the nouns of the noun line that the phrase line
 * does not already mention, with the helper labels stripped.
 */
module Keywords {
  import opened Text
  import opened Seqs

  /** `example.split('\n')[i]?.trim() || ''`: the trimmed line, or the empty text past the last line. */
  function ExampleLine(example: string, i: nat): (r: string)
    ensures '\n' !in r
    ensures i < |Split(example, '\n')| ==> r == Trim(Split(example, '\n')[i])
    ensures i >= |Split(example, '\n')| ==> r == []
  {
    var lines := Split(example, '\n');
    if i < |lines| then
      assert forall c :: c in Trim(lines[i]) ==> c in lines[i];
      Trim(lines[i])
    else []
  }

  /** The non-empty texts of a list, in order (`filter(Boolean)`). */
  function NonEmpty(parts: seq<string>): (r: seq<string>)
    ensures forall p :: p in r <==> p in parts && p != []
  {
    if parts == [] then []
    else
      var last := parts[|parts| - 1];
      SplitLast(parts);
      NonEmpty(parts[..|parts| - 1]) + (if last != [] then [last] else [])
  }

  /** The nouns of the noun line: its comma-separated, trimmed, non-empty pieces. */
  function NounParts(nounLine: string): (r: seq<string>)
    ensures forall n :: n in r ==> n != [] && ',' !in n && Trim(n) == n
  {
    if nounLine == [] then []
    else
      var parts := SplitTrim(nounLine, ',');
      forall p | p in parts ensures Trim(p) == p {
        var i :| 0 <= i < |parts| && parts[i] == p;
        TrimIdempotent(Split(nounLine, ',')[i]);
      }
      NonEmpty(parts)
  }

  /** The phrase line does not mention the noun, case-insensitively. */
  predicate IsNew(phrase: string, noun: string) {
    !Contains(Lower(phrase), Lower(noun))
  }

  /** The nouns the phrase line does not mention, in order; a repeated noun stays repeated. */
  function NewNouns(phrase: string, nouns: seq<string>): (r: seq<string>)
    ensures |r| <= |nouns|
    ensures forall n :: n in r <==> n in nouns && IsNew(phrase, n)
  {
    if nouns == [] then []
    else
      var last := nouns[|nouns| - 1];
      SplitLast(nouns);
      NewNouns(phrase, nouns[..|nouns| - 1]) + (if IsNew(phrase, last) then [last] else [])
  }

  /** `keyWords ? `${keyWords}, ${n}` : n`. */
  function AppendKeyword(acc: string, n: string): string {
    if acc != [] then acc + ", " + n else n
  }

  /**
   * The key words after the first nouns: the phrase line, each noun it does
   * not mention appended in turn. The test reads the phrase line, never the
   * growing text.
   */
  function KeywordsFrom(phrase: string, nouns: seq<string>): string {
    if nouns == [] then phrase
    else
      var acc := KeywordsFrom(phrase, nouns[..|nouns| - 1]);
      var n := nouns[|nouns| - 1];
      if IsNew(phrase, n) then AppendKeyword(acc, n) else acc
  }

  /** The texts separated by `, `; no texts give the empty text. */
  function JoinComma(parts: seq<string>): string {
    if parts == [] then []
    else if |parts| == 1 then parts[0]
    else JoinComma(parts[..|parts| - 1]) + ", " + parts[|parts| - 1]
  }

  lemma {:induction false} JoinCommaEmpty(parts: seq<string>)
    requires forall p :: p in parts ==> p != []
    ensures JoinComma(parts) == [] <==> parts == []
  {
    if |parts| > 1 {
      assert parts[|parts| - 1] in parts;
    } else if |parts| == 1 {
      assert parts[0] in parts;
    }
  }

  /** Joining one more non-empty text is what the `forEach` body does to the accumulated text. */
  lemma JoinCommaSnoc(parts: seq<string>, n: string)
    requires forall p :: p in parts ==> p != []
    ensures JoinComma(parts + [n]) == AppendKeyword(JoinComma(parts), n)
  {
    JoinCommaEmpty(parts);
    assert (parts + [n])[..|parts + [n]| - 1] == parts;
  }

  /**
   * The merged key words are the phrase line (when not empty) followed by
   * every noun the phrase line does not mention, separated by `, `.
   */
  lemma {:induction false} KeywordsAreJoined(phrase: string, nouns: seq<string>)
    requires forall n :: n in nouns ==> n != []
    ensures KeywordsFrom(phrase, nouns) == JoinComma((if phrase == [] then [] else [phrase]) + NewNouns(phrase, nouns))
  {
    var head: seq<string> := if phrase == [] then [] else [phrase];
    if nouns == [] {
      assert head + [] == head;
    } else {
      var init := nouns[..|nouns| - 1];
      var last := nouns[|nouns| - 1];
      assert forall n :: n in init ==> n in nouns;
      KeywordsAreJoined(phrase, init);
      var before := head + NewNouns(phrase, init);
      var added: seq<string> := if IsNew(phrase, last) then [last] else [];
      assert NewNouns(phrase, nouns) == NewNouns(phrase, init) + added;
      AppendAssoc(head, NewNouns(phrase, init), added);
      if IsNew(phrase, last) {
        JoinCommaSnoc(before, last);
      } else {
        assert before + [] == before;
      }
    }
  }

  /** A noun the noun line repeats, and the phrase line lacks, is appended twice. */
  lemma RepeatedNounAppendedTwice(n: string)
    requires n != []
    ensures KeywordsFrom([], [n, n]) == n + ", " + n
  {
    assert [n, n][..1] == [n];
    assert [n][..0] == [];
    assert Lower([]) == [];
    assert !Contains([], Lower(n)) by {
      assert !StartsWith([], Lower(n));
    }
    assert KeywordsFrom([], [n]) == n;
  }

  /**
   * The `forEach` over the nouns: `keyWords` starts as the phrase line and
   * takes each new noun in turn.
   */
  method MergeKeywords(phrase: string, nouns: seq<string>) returns (keyWords: string)
    ensures keyWords == KeywordsFrom(phrase, nouns)
  {
    keyWords := phrase;
    for i := 0 to |nouns|
      invariant keyWords == KeywordsFrom(phrase, nouns[..i])
    {
      assert nouns[..i + 1][..i] == nouns[..i];
      if !Contains(Lower(phrase), Lower(nouns[i])) {
        keyWords := if keyWords != [] then keyWords + ", " + nouns[i] else nouns[i];
      }
    }
    assert nouns[..|nouns|] == nouns;
  }

  /**
   * `s.replace(/^<label>\s*`/i, '')`: the tag, matched without regard to
   * case, is cut off the front together with the white space after it.
   */
  function StripLabel(s: string, tag: string): (r: string)
    ensures |r| <= |s| && r == s[|s| - |r|..]
    ensures !StartsWith(Lower(s), Lower(tag)) ==> r == s
    ensures StartsWith(Lower(s), Lower(tag)) ==> |r| <= |s| - |tag| && (r == [] || !IsWhitespace(r[0]))
    ensures StartsWith(Lower(s), Lower(tag)) ==> forall i :: |tag| <= i < |s| - |r| ==> IsWhitespace(s[i])
  {
    if StartsWith(Lower(s), Lower(tag)) then
      LabelFits(s, tag);
      var t := TrimStart(s[|tag|..]);
      SuffixOfSuffix(s, |tag|, t);
      assert forall i :: |tag| <= i < |s| - |t| ==> s[i] == s[|tag|..][i - |tag|];
      t
    else s
  }

  lemma LabelFits(s: string, tag: string)
    requires StartsWith(Lower(s), Lower(tag))
    ensures |tag| <= |s|
  {
  }

  /** A suffix of a suffix of `s` is a suffix of `s`. */
  lemma SuffixOfSuffix(s: string, n: nat, t: string)
    requires n <= |s| && |t| <= |s| - n && t == s[n..][|s| - n - |t|..]
    ensures t == s[|s| - |t|..]
  {
  }

  const PhraseLabel := "Adj + Noun phrases:"
  const NounLabel := "Noun key words:"

  /** The key words of an example text: lines 3 and 4 merged, then both labels stripped in turn. */
  function ImageKeywords(example: string): (r: string)
    ensures |r| <= |KeywordsFrom(ExampleLine(example, 2), NounParts(ExampleLine(example, 3)))|
  {
    var merged := KeywordsFrom(ExampleLine(example, 2), NounParts(ExampleLine(example, 3)));
    StripLabel(StripLabel(merged, PhraseLabel), NounLabel)
  }

  /** A phrase line that already names every noun is sent as it is. */
  lemma {:induction false} KnownNounsAddNothing(phrase: string, nouns: seq<string>)
    requires forall n :: n in nouns ==> !IsNew(phrase, n)
    ensures KeywordsFrom(phrase, nouns) == phrase
  {
    if nouns != [] {
      assert nouns[|nouns| - 1] in nouns;
      assert forall n :: n in nouns[..|nouns| - 1] ==> n in nouns;
      KnownNounsAddNothing(phrase, nouns[..|nouns| - 1]);
    }
  }
}
