/** The intent matcher and the answer arbitration of `find_best_match`. */
module Chatbot {

  import opened Common
  import opened Text
  import opened Levenshtein
  import opened Catalog

  /** An FAQ intent as loaded from the intents table: its example patterns
      and its candidate replies. */
  datatype Intent = Intent(tag: string, patterns: seq<string>, responses: seq<string>)

  /** What `find_best_match` can end in: an answer, or the `IndexError`
      that `random.choice` raises on an intent with an empty response list. */
  datatype Outcome = Returned(answer: Answer) | ChoiceFromEmpty

  /** The fixed apology returned when no source matches (app.py:230). */
  const Apology: Answer :=
    Answer("Maaf, saya tidak mengerti maksud Anda, silakan pergi ke staf untuk pertanyaan lebih lanjut.", 0.0, "")

  /** The score of every pattern of every intent against the cleaned input:
      `ScoreTable(u, intents)[a][b]` is the similarity of `u` and pattern `b`
      of intent `a`, cleaned. */
  function ScoreTable(uiClean: string, intents: seq<Intent>): (t: seq<seq<real>>)
    ensures Shaped(t, intents)
    ensures forall a, b :: ValidPair(t, a, b) ==> 0.0 <= t[a][b] <= 100.0
  {
    seq(|intents|, a requires 0 <= a < |intents| =>
      seq(|intents[a].patterns|, b requires 0 <= b < |intents[a].patterns| =>
        Similarity(uiClean, CleanText(intents[a].patterns[b]))))
  }

  /** The table has one row per intent and one entry per pattern. */
  predicate Shaped(t: seq<seq<real>>, intents: seq<Intent>)
  {
    |t| == |intents| && forall a :: 0 <= a < |t| ==> |t[a]| == |intents[a].patterns|
  }

  /** Entry `b` of row `a` exists. */
  predicate ValidPair(t: seq<seq<real>>, a: int, b: int)
  {
    0 <= a < |t| && 0 <= b < |t[a]|
  }

  /** Pattern (a, b) comes before pattern (c, d) in the nested loop. */
  predicate Before(a: int, b: int, c: int, d: int)
  {
    a < c || (a == c && b < d)
  }

  /** Pattern (a, b) scores more than 0 and more than every pattern before
      it: the loop records it as a new best, drawing a reply from its
      intent. */
  ghost predicate IsRecord(t: seq<seq<real>>, a: int, b: int)
  {
    ValidPair(t, a, b)
    && t[a][b] > 0.0
    && forall c, d :: ValidPair(t, c, d) && Before(c, d, a, b) ==> t[c][d] < t[a][b]
  }

  /** Pattern (a, b) scores highest of all, and strictly higher than every
      pattern before it. */
  ghost predicate IsFirstBest(t: seq<seq<real>>, a: int, b: int)
  {
    ValidPair(t, a, b)
    && (forall c, d :: ValidPair(t, c, d) ==> t[c][d] <= t[a][b])
    && (forall c, d :: ValidPair(t, c, d) && Before(c, d, a, b) ==> t[c][d] < t[a][b])
  }

  /** Some new best falls on an intent without replies, so `random.choice`
      raises. */
  ghost predicate ChoiceFails(t: seq<seq<real>>, intents: seq<Intent>)
  {
    exists a, b :: IsRecord(t, a, b) && a < |intents| && intents[a].responses == []
  }

  /** Some pattern reaches `ThreshIntent`. */
  ghost predicate IntentWins(t: seq<seq<real>>)
  {
    exists a, b :: ValidPair(t, a, b) && t[a][b] >= ThreshIntent
  }

  /** The state of the intent loop once every pattern before (i, p) has been
      scored: `best` is the largest score so far (0 at the start), every
      record so far had replies to draw from, and when `best` is positive
      it belongs to the first pattern (wa, wb) that reached it, whose text
      is `pattern` and one of whose intent's replies is `response`. */
  ghost predicate Scanned(t: seq<seq<real>>, intents: seq<Intent>, i: int, p: int,
                          best: real, response: string, pattern: string, wa: int, wb: int)
  {
    && Shaped(t, intents)
    && 0.0 <= best
    && (forall a, b :: ValidPair(t, a, b) && Before(a, b, i, p) ==> t[a][b] <= best)
    && (forall a, b :: ValidPair(t, a, b) && Before(a, b, i, p) && IsRecord(t, a, b) ==>
                         intents[a].responses != [])
    && (best == 0.0 ==> response == "" && pattern == "")
    && (best > 0.0 ==>
          && ValidPair(t, wa, wb) && Before(wa, wb, i, p) && t[wa][wb] == best
          && (forall c, d :: ValidPair(t, c, d) && Before(c, d, wa, wb) ==> t[c][d] < best)
          && pattern == intents[wa].patterns[wb] && response in intents[wa].responses)
  }

  /** The intent loop of `find_best_match` (app.py:208-216): every pattern
      of every intent, cleaned and scored against the cleaned input; a
      strictly larger score becomes the best, with a reply drawn from that
      intent's replies. The reply is any member of the list, which is all
      that `random.choice` promises. */
  method MatchIntent(uiClean: string, intents: seq<Intent>) returns (r: Outcome)
    ensures var t := ScoreTable(uiClean, intents);
            && (r.ChoiceFromEmpty? <==> ChoiceFails(t, intents))
            && (r.Returned? ==> r.answer.score >= 0.0)
            && (r.Returned? && r.answer.score == 0.0 ==>
                  r.answer.response == "" && r.answer.pattern == ""
                  && forall a, b :: ValidPair(t, a, b) ==> t[a][b] <= 0.0)
            && (r.Returned? && r.answer.score > 0.0 ==>
                  exists a, b :: IsFirstBest(t, a, b) && r.answer.score == t[a][b]
                                 && r.answer.pattern == intents[a].patterns[b]
                                 && r.answer.response in intents[a].responses)
  {
    ghost var t := ScoreTable(uiClean, intents);
    var bestScore, bestResponse, bestPattern := 0.0, "", "";
    ghost var wa: int, wb: int := 0, 0;
    ScanStarts(t, intents);
    for i := 0 to |intents|
      invariant Scanned(t, intents, i, 0, bestScore, bestResponse, bestPattern, wa, wb)
    {
      var intent := intents[i];
      for p := 0 to |intent.patterns|
        invariant Scanned(t, intents, i, p, bestScore, bestResponse, bestPattern, wa, wb)
      {
        var pattern := intent.patterns[p];
        var patternClean := CleanText(pattern);
        var similarity := LevenshteinSimilarity(uiClean, patternClean);
        assert similarity == t[i][p];
        if similarity > bestScore {
          if intent.responses == [] {
            ScanFails(t, intents, i, p, bestScore, bestResponse, bestPattern, wa, wb);
            return ChoiceFromEmpty;
          }
          var k :| 0 <= k < |intent.responses|;
          ScanTakes(t, intents, i, p, bestScore, bestResponse, bestPattern, wa, wb, intent.responses[k]);
          bestScore := similarity;
          bestResponse := intent.responses[k];
          bestPattern := pattern;
          wa, wb := i, p;
        } else {
          ScanSkips(t, intents, i, p, bestScore, bestResponse, bestPattern, wa, wb);
        }
      }
      ScanNextIntent(t, intents, i, bestScore, bestResponse, bestPattern, wa, wb);
    }
    ScanDone(t, intents, bestScore, bestResponse, bestPattern, wa, wb);
    return Returned(Answer(bestResponse, bestScore, bestPattern));
  }

  /** At pattern (i, p) the loop takes a new best exactly when (i, p) is a
      record. */
  lemma RecordIff(t: seq<seq<real>>, intents: seq<Intent>, i: int, p: int,
                  best: real, response: string, pattern: string, wa: int, wb: int)
    requires ValidPair(t, i, p)
    requires Scanned(t, intents, i, p, best, response, pattern, wa, wb)
    ensures t[i][p] > best <==> IsRecord(t, i, p)
  {
    if IsRecord(t, i, p) && best > 0.0 {
      assert t[wa][wb] < t[i][p];
    }
  }

  /** The running state before the first pattern. */
  lemma ScanStarts(t: seq<seq<real>>, intents: seq<Intent>)
    requires Shaped(t, intents)
    ensures Scanned(t, intents, 0, 0, 0.0, "", "", 0, 0)
  {
  }

  /** A score no larger than the best leaves the best where it is. */
  lemma ScanSkips(t: seq<seq<real>>, intents: seq<Intent>, i: int, p: int,
                  best: real, response: string, pattern: string, wa: int, wb: int)
    requires ValidPair(t, i, p) && t[i][p] <= best
    requires Scanned(t, intents, i, p, best, response, pattern, wa, wb)
    ensures Scanned(t, intents, i, p + 1, best, response, pattern, wa, wb)
  {
    RecordIff(t, intents, i, p, best, response, pattern, wa, wb);
  }

  /** A strictly larger score on an intent with replies becomes the best. */
  lemma ScanTakes(t: seq<seq<real>>, intents: seq<Intent>, i: int, p: int,
                  best: real, response: string, pattern: string, wa: int, wb: int, reply: string)
    requires ValidPair(t, i, p) && t[i][p] > best
    requires Scanned(t, intents, i, p, best, response, pattern, wa, wb)
    requires reply in intents[i].responses
    ensures Scanned(t, intents, i, p + 1, t[i][p], reply, intents[i].patterns[p], i, p)
  {
    RecordIff(t, intents, i, p, best, response, pattern, wa, wb);
  }

  /** A strictly larger score on an intent without replies is a record
      whose reply cannot be drawn. */
  lemma ScanFails(t: seq<seq<real>>, intents: seq<Intent>, i: int, p: int,
                  best: real, response: string, pattern: string, wa: int, wb: int)
    requires ValidPair(t, i, p) && t[i][p] > best
    requires Scanned(t, intents, i, p, best, response, pattern, wa, wb)
    requires intents[i].responses == []
    ensures ChoiceFails(t, intents)
  {
    RecordIff(t, intents, i, p, best, response, pattern, wa, wb);
  }

  /** Past the last pattern of intent `i` the loop moves on to intent `i + 1`. */
  lemma ScanNextIntent(t: seq<seq<real>>, intents: seq<Intent>, i: int,
                       best: real, response: string, pattern: string, wa: int, wb: int)
    requires 0 <= i < |intents|
    requires Scanned(t, intents, i, |intents[i].patterns|, best, response, pattern, wa, wb)
    ensures Scanned(t, intents, i + 1, 0, best, response, pattern, wa, wb)
  {
  }

  /** After every pattern: no record lacked replies, and the best is either 0
      with nothing chosen or the score of the first best pattern. */
  lemma ScanDone(t: seq<seq<real>>, intents: seq<Intent>,
                 best: real, response: string, pattern: string, wa: int, wb: int)
    requires Scanned(t, intents, |intents|, 0, best, response, pattern, wa, wb)
    ensures !ChoiceFails(t, intents)
    ensures best == 0.0 ==>
              response == "" && pattern == "" && forall a, b :: ValidPair(t, a, b) ==> t[a][b] <= 0.0
    ensures best > 0.0 ==>
              IsFirstBest(t, wa, wb) && best == t[wa][wb]
              && pattern == intents[wa].patterns[wb] && response in intents[wa].responses
  {
  }

  /** The order in which `find_best_match` falls back (app.py:220-230): a
      subject answer wins over a title answer whatever their scores, and
      with neither the apology is returned. A source answers when its
      reply text is truthy. */
  function Cascade(subject: Option<Answer>, title: Option<Answer>): Answer
  {
    if subject.Some? && subject.value.response != "" then subject.value
    else if title.Some? && title.value.response != "" then title.value
    else Apology
  }

  /** The answer when no intent pattern reaches `ThreshIntent`. */
  function FallbackAnswer(userInput: string, subjects: seq<Option<string>>,
                          lookup: string -> Option<seq<Listing>>, books: seq<Book>): Answer
  {
    Cascade(SubjectAnswer(userInput, subjects, lookup), TitleAnswer(userInput, books))
  }

  /** The fallback is the subject answer whenever there is one, else the
      title answer whenever there is one, else the apology; its score is 0
      exactly for the apology and otherwise at least `ThreshSubject`. */
  lemma FallbackAnswerSpec(userInput: string, subjects: seq<Option<string>>,
                           lookup: string -> Option<seq<Listing>>, books: seq<Book>)
    ensures var r := FallbackAnswer(userInput, subjects, lookup, books);
            var s := SubjectAnswer(userInput, subjects, lookup);
            var t := TitleAnswer(userInput, books);
            && (s.Some? ==> r == s.value)
            && (s.None? && t.Some? ==> r == t.value)
            && (s.None? && t.None? ==> r == Apology)
            && 0.0 <= r.score <= 100.0
            && (r.score == 0.0 <==> r == Apology)
            && (r != Apology ==> r.score >= ThreshSubject)
  {
    TitleAnswerSpec(userInput, books);
    var t := TitleAnswer(userInput, books);
    if t.Some? {
      assert t.value.response != "";
    }
  }

  /** With no intents, no subjects and no books, every input gets the
      apology. */
  lemma NoDataGivesApology(userInput: string, lookup: string -> Option<seq<Listing>>)
    ensures FallbackAnswer(userInput, [], lookup, []) == Apology
    ensures var t := ScoreTable(CleanText(userInput), []);
            !IntentWins(t) && !ChoiceFails(t, [])
  {
    TitleAnswerSpec(userInput, []);
  }

  /** `find_best_match` (app.py:204-230): the intent answer when the best
      pattern reaches `ThreshIntent`, otherwise the subject answer, the
      title answer or the apology, in that order. `subjects` are the rows of
      the distinct-subject query, `lookup` the available-books query and
      `books` the rows of the all-books query. */
  method FindBestMatch(userInput: string, intents: seq<Intent>, subjects: seq<Option<string>>,
                       lookup: string -> Option<seq<Listing>>, books: seq<Book>) returns (r: Outcome)
    ensures var t := ScoreTable(CleanText(userInput), intents);
            && (r.ChoiceFromEmpty? <==> ChoiceFails(t, intents))
            && (r.Returned? && IntentWins(t) ==>
                  exists a, b :: IsFirstBest(t, a, b) && r.answer.score == t[a][b]
                                 && r.answer.score >= ThreshIntent
                                 && r.answer.pattern == intents[a].patterns[b]
                                 && r.answer.response in intents[a].responses)
            && (r.Returned? && !IntentWins(t) ==>
                  r.answer == FallbackAnswer(userInput, subjects, lookup, books))
            && (r.Returned? ==>
                  0.0 <= r.answer.score <= 100.0
                  && (r.answer.score < ThreshIntent <==> r.answer == Apology))
  {
    var uiClean := CleanText(userInput);
    ghost var t := ScoreTable(uiClean, intents);
    var intentResult := MatchIntent(uiClean, intents);
    if intentResult.ChoiceFromEmpty? {
      return ChoiceFromEmpty;
    }
    var best := intentResult.answer;
    if best.score >= ThreshIntent {
      return Returned(best);
    }
    assert !IntentWins(t);
    FallbackAnswerSpec(userInput, subjects, lookup, books);

    var subj := SearchBooksBySubject(userInput, subjects, lookup);
    if subj.Some? && subj.value.response != "" {
      return Returned(subj.value);
    }

    var title := SearchBooksByTitle(userInput, books);
    if title.Some? && title.value.response != "" {
      return Returned(title.value);
    }

    return Returned(Apology);
  }
}
