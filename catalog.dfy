/** The book-catalog matchers: subject keywords, the title matcher of
    `search_books_by_title` and the subject matcher of
    `search_books_by_subject`, with the replies they render. The rows the
    database would return are parameters. */
module Catalog {

  import opened Common
  import opened Text
  import opened Levenshtein
  import opened Selection
  import opened Render

  /** A row of `SELECT title, availability, location FROM books`. */
  datatype Book = Book(title: string, availability: string, location: string)

  /** A row of the available-books-by-subject query. */
  datatype Listing = Listing(title: string, location: string)

  /** Row `i` of the subject column holds a non-empty subject whose
      lower-cased form is `kw`. */
  predicate KeywordOf(subjects: seq<Option<string>>, i: int, kw: string)
  {
    0 <= i < |subjects| && Truthy(subjects[i]) && kw == LowerStr(subjects[i].value)
  }

  /** The keyword list of `get_all_subject_keywords` (app.py:114): every
      non-empty subject, lower-cased, in row order. A `NULL` subject is
      `None`. */
  function SubjectKeywords(subjects: seq<Option<string>>): (r: seq<string>)
    ensures |r| <= |subjects|
    ensures forall j :: 0 <= j < |r| ==> r[j] != "" && IsLowered(r[j])
    ensures forall i :: 0 <= i < |subjects| && Truthy(subjects[i]) ==> LowerStr(subjects[i].value) in r
  {
    if subjects == [] then []
    else
      var rest := SubjectKeywords(subjects[1..]);
      if Truthy(subjects[0]) then [LowerStr(subjects[0].value)] + rest else rest
  }

  /** Every keyword comes from a non-empty subject row. */
  lemma {:induction false} SubjectKeywordsSound(subjects: seq<Option<string>>, j: int)
    requires 0 <= j < |SubjectKeywords(subjects)|
    ensures exists i :: KeywordOf(subjects, i, SubjectKeywords(subjects)[j])
  {
    var rest := SubjectKeywords(subjects[1..]);
    if Truthy(subjects[0]) && j == 0 {
      assert KeywordOf(subjects, 0, SubjectKeywords(subjects)[j]);
    } else {
      var j' := if Truthy(subjects[0]) then j - 1 else j;
      assert SubjectKeywords(subjects)[j] == rest[j'];
      SubjectKeywordsSound(subjects[1..], j');
      var i :| KeywordOf(subjects[1..], i, rest[j']);
      assert KeywordOf(subjects, i + 1, SubjectKeywords(subjects)[j]);
    }
  }

  // ---------------------------------------------------------------------
  // Title matcher
  // ---------------------------------------------------------------------

  /** The score of every book: the lower-cased input against the
      lower-cased title. */
  function TitleScores(userInput: string, books: seq<Book>): seq<real>
  {
    seq(|books|, i requires 0 <= i < |books| => Similarity(LowerStr(userInput), LowerStr(books[i].title)))
  }

  /** The status word of a book (app.py:142). */
  function Status(availability: string): (r: string)
    ensures r == "tersedia" <==> availability == "tersedia"
    ensures r == "tersedia" || r == "sedang dipinjam"
  {
    if availability == "tersedia" then "tersedia" else "sedang dipinjam"
  }

  /** The reply for a matched title (app.py:143). */
  function TitleResponse(b: Book): string
  {
    "Buku \"" + b.title + "\" saat ini " + Status(b.availability) + " (rak " + b.location + ")"
  }

  /** The title reply carries the title in quotes right after `Buku`, the
      status word right after `saat ini`, and the shelf just before the
      closing parenthesis that ends it. */
  lemma TitleResponseShape(b: Book)
    ensures var r := TitleResponse(b);
            && OccursAt(r, b.title, 6)
            && OccursAt(r, Status(b.availability), |b.title| + 17)
            && OccursAt(r, b.location, |r| - |b.location| - 1)
            && r[..6] == "Buku \"" && r[|r| - 1] == ')'
  {
    Pieces("Buku \"", b.title, "\" saat ini ", Status(b.availability), " (rak ", b.location, ")");
  }

  /** Where the three variable pieces of a seven-piece concatenation sit. */
  lemma Pieces(p1: string, x: string, p2: string, y: string, p3: string, z: string, p4: string)
    ensures var r := p1 + x + p2 + y + p3 + z + p4;
            && OccursAt(r, x, |p1|)
            && OccursAt(r, y, |p1| + |x| + |p2|)
            && OccursAt(r, z, |r| - |z| - |p4|)
            && r[..|p1|] == p1 && r[|r| - |p4|..] == p4
  {
    var r := p1 + x + p2 + y + p3 + z + p4;
    assert r == p1 + x + (p2 + y + p3 + z + p4);
    assert r == (p1 + x + p2) + y + (p3 + z + p4);
    assert r == (p1 + x + p2 + y + p3) + z + p4;
  }

  /** What the title matcher reports: the first book whose score is the
      largest of all, provided that score reaches `ThreshTitle`. */
  function TitleAnswer(userInput: string, books: seq<Book>): Option<Answer>
  {
    var scores := TitleScores(userInput, books);
    match BestAtLeast(scores, ThreshTitle)
    case None => None
    case Some(k) => Some(Answer(TitleResponse(books[k]), scores[k], books[k].title))
  }

  /** The title matcher answers exactly when some title reaches
      `ThreshTitle`; its answer is the reply for the first book of largest
      score, carries that score and names that book's title. */
  lemma TitleAnswerSpec(userInput: string, books: seq<Book>)
    ensures var r := TitleAnswer(userInput, books);
            var scores := TitleScores(userInput, books);
            && (r.None? <==> forall j :: 0 <= j < |books| ==> scores[j] < ThreshTitle)
            && (r.Some? ==> exists k :: IsFirstMax(scores, k)
                                        && r.value == Answer(TitleResponse(books[k]), scores[k], books[k].title))
            && (r.Some? ==> ThreshTitle <= r.value.score <= 100.0)
  {
  }

  /** The matching loop of `search_books_by_title` (app.py:131-146): keeps
      the running best score and book, replacing them only on a strictly
      larger score that also reaches `ThreshTitle`. */
  method SearchBooksByTitle(userInput: string, books: seq<Book>) returns (r: Option<Answer>)
    ensures r == TitleAnswer(userInput, books)
  {
    ghost var scores := TitleScores(userInput, books);
    var bestScore := 0.0;
    var matchedBook: Option<nat> := None;
    var ui := LowerStr(userInput);
    for i := 0 to |books|
      invariant matchedBook.None? ==> bestScore == 0.0 && forall j :: 0 <= j < i ==> scores[j] < ThreshTitle
      invariant matchedBook.Some? ==>
                  matchedBook.value < i && scores[matchedBook.value] == bestScore >= ThreshTitle
                  && (forall j :: 0 <= j < i ==> scores[j] <= bestScore)
                  && (forall j :: 0 <= j < matchedBook.value ==> scores[j] < bestScore)
    {
      var title := LowerStr(books[i].title);
      var score := LevenshteinSimilarity(ui, title);
      if score > bestScore && score >= ThreshTitle {
        bestScore := score;
        matchedBook := Some(i);
      }
    }
    BestAtLeastIs(scores, ThreshTitle, matchedBook);
    if matchedBook.Some? {
      var book := books[matchedBook.value];
      var response := TitleResponse(book);
      return Some(Answer(response, bestScore, book.title));
    }
    return None;
  }

  // ---------------------------------------------------------------------
  // Subject matcher
  // ---------------------------------------------------------------------

  /** The score of every keyword against the lower-cased input. */
  function KeywordScores(ui: string, keywords: seq<string>): seq<real>
  {
    seq(|keywords|, i requires 0 <= i < |keywords| => Similarity(ui, keywords[i]))
  }

  /** The first keyword that occurs inside `ui`, if any. */
  function FirstContained(ui: string, keywords: seq<string>): (r: Option<nat>)
    ensures r.Some? ==> r.value < |keywords| && Contains(ui, keywords[r.value])
    ensures r.Some? ==> forall j :: 0 <= j < r.value ==> !Contains(ui, keywords[j])
    ensures r.None? ==> forall j :: 0 <= j < |keywords| ==> !Contains(ui, keywords[j])
  {
    if keywords == [] then None
    else if Contains(ui, keywords[0]) then Some(0)
    else match FirstContained(ui, keywords[1..])
      case None => None
      case Some(f) => Some(f + 1)
  }

  /** The keyword and score the subject matcher settles on (app.py:156-174):
      the first keyword of largest similarity when that reaches
      `ThreshSubject`; failing that, the first keyword that occurs inside
      the input, scored `SubstringScore`; failing both, nothing. */
  function SubjectChoice(ui: string, keywords: seq<string>): Option<(string, real)>
  {
    var scores := KeywordScores(ui, keywords);
    match BestAtLeast(scores, ThreshSubject)
    case Some(k) => Some((keywords[k], scores[k]))
    case None =>
      match FirstContained(ui, keywords)
      case None => None
      case Some(f) => Some((keywords[f], SubstringScore))
  }

  /** What the subject choice promises: nothing without keywords; a chosen
      keyword is one of the keywords and scores at least `ThreshSubject`;
      when some keyword reaches `ThreshSubject` by similarity the choice is
      the first keyword of largest similarity with that similarity; when
      none does, it is the first keyword inside the input, scored
      `SubstringScore`, or nothing. */
  lemma SubjectChoiceSpec(ui: string, keywords: seq<string>)
    ensures var r := SubjectChoice(ui, keywords);
            var scores := KeywordScores(ui, keywords);
            && (keywords == [] ==> r.None?)
            && (r.Some? ==> r.value.0 in keywords && r.value.1 >= ThreshSubject)
            && ((exists j :: 0 <= j < |keywords| && scores[j] >= ThreshSubject) ==>
                  exists k :: IsFirstMax(scores, k) && r == Some((keywords[k], scores[k])))
            && ((forall j :: 0 <= j < |keywords| ==> scores[j] < ThreshSubject) ==>
                  r == match FirstContained(ui, keywords)
                       case None => None
                       case Some(f) => Some((keywords[f], SubstringScore)))
  {
  }

  /** `f"{i + 1}. {row['title']}"` for every row, numbering from `start`. */
  function NumberedTitles(rows: seq<Listing>, start: nat): (r: seq<string>)
    ensures |r| == |rows|
    ensures forall i :: 0 <= i < |rows| ==> r[i] == Decimal(start + i) + ". " + rows[i].title
  {
    if rows == [] then [] else [Decimal(start) + ". " + rows[0].title] + NumberedTitles(rows[1..], start + 1)
  }

  /** The reply for a matched subject (app.py:185-191): the count, the shelf
      of the first row and the numbered titles, or the "none available"
      message when no row came back. */
  function SubjectResponse(keyword: string, rows: seq<Listing>): (r: string)
    ensures r != ""
  {
    if rows != [] then
      "Ada " + Decimal(|rows|) + " buku tentang " + keyword + " di rak " + rows[0].location + ":\n"
      + JoinLines(NumberedTitles(rows, 1))
    else
      "Maaf, belum ada buku " + keyword + " yang tersedia saat ini."
  }

  /** What the subject matcher reports. `lookup` stands for the
      available-books query on the matched keyword; `None` is a failed
      query, which turns into no match. */
  function SubjectAnswer(userInput: string, subjects: seq<Option<string>>,
                         lookup: string -> Option<seq<Listing>>): (r: Option<Answer>)
    ensures subjects == [] ==> r.None?
    ensures r.Some? ==> r.value.response != "" && ThreshSubject <= r.value.score <= 100.0
    ensures r.Some? ==> exists kw :: kw in SubjectKeywords(subjects) && r.value.pattern == "subject:" + kw
  {
    match SubjectChoice(LowerStr(userInput), SubjectKeywords(subjects))
    case None => None
    case Some((keyword, score)) =>
      match lookup(keyword)
      case None => None
      case Some(rows) => Some(Answer(SubjectResponse(keyword, rows), score, "subject:" + keyword))
  }

  /** The keyword selection of `search_books_by_subject` (app.py:156-171):
      a best-similarity pass over the keywords with a strict `>` from 0,
      then, unless that pass found a keyword at `ThreshSubject`, a scan for
      the first keyword inside the input, stopped by `break`. The keywords
      are those of `SubjectKeywords`, so none is empty. */
  method SelectSubject(ui: string, subjectKeywords: seq<string>)
    returns (matchedSubject: Option<string>, bestSimilarity: real)
    requires forall j :: 0 <= j < |subjectKeywords| ==> subjectKeywords[j] != ""
    ensures SubjectChoice(ui, subjectKeywords)
         == if !Truthy(matchedSubject) || bestSimilarity < ThreshSubject then None
            else Some((matchedSubject.value, bestSimilarity))
  {
    matchedSubject := None;
    bestSimilarity := 0.0;
    ghost var scores := KeywordScores(ui, subjectKeywords);

    ghost var best: nat := 0;
    for i := 0 to |subjectKeywords|
      invariant 0.0 <= bestSimilarity
      invariant forall j :: 0 <= j < i ==> scores[j] <= bestSimilarity
      invariant bestSimilarity == 0.0 ==> matchedSubject == None
      invariant bestSimilarity > 0.0 ==>
                  best < i && scores[best] == bestSimilarity && matchedSubject == Some(subjectKeywords[best])
                  && forall j :: 0 <= j < best ==> scores[j] < bestSimilarity
    {
      var keyword := subjectKeywords[i];
      var similarity := LevenshteinSimilarity(ui, keyword);
      if similarity > bestSimilarity {
        bestSimilarity := similarity;
        matchedSubject := Some(keyword);
        best := i;
      }
    }
    ScoringPassResult(scores, subjectKeywords, bestSimilarity, matchedSubject, best);

    if !Truthy(matchedSubject) || bestSimilarity < ThreshSubject {
      var j := 0;
      while j < |subjectKeywords|
        invariant 0 <= j <= |subjectKeywords|
        invariant forall q :: 0 <= q < j ==> !Contains(ui, subjectKeywords[q])
        invariant bestSimilarity < ThreshSubject || !Truthy(matchedSubject)
      {
        var keyword := subjectKeywords[j];
        if Contains(ui, keyword) {
          matchedSubject := Some(keyword);
          bestSimilarity := if bestSimilarity < SubstringScore then SubstringScore else bestSimilarity;
          FirstContainedAt(ui, subjectKeywords, j);
          break;
        }
        j := j + 1;
      }
    }
  }

  /** What the best-similarity pass leaves behind decides the match by
      similarity: a truthy keyword at `ThreshSubject` or more is exactly the
      first keyword of largest score. */
  lemma ScoringPassResult(scores: seq<real>, keywords: seq<string>, best: real,
                          matched: Option<string>, k: nat)
    requires |scores| == |keywords|
    requires forall j :: 0 <= j < |keywords| ==> keywords[j] != ""
    requires 0.0 <= best && forall j :: 0 <= j < |scores| ==> scores[j] <= best
    requires best == 0.0 ==> matched == None
    requires best > 0.0 ==> k < |scores| && scores[k] == best && matched == Some(keywords[k])
                            && forall j :: 0 <= j < k ==> scores[j] < best
    ensures var b := BestAtLeast(scores, ThreshSubject);
            && (b.Some? <==> Truthy(matched) && best >= ThreshSubject)
            && (b.Some? ==> matched == Some(keywords[b.value]) && best == scores[b.value])
  {
    var b := BestAtLeast(scores, ThreshSubject);
    if b.Some? {
      FirstMaxUnique(scores, b.value, k);
    }
  }

  /** A keyword inside the input with none before it is the first one. */
  lemma FirstContainedAt(ui: string, keywords: seq<string>, j: nat)
    requires j < |keywords| && Contains(ui, keywords[j])
    requires forall q :: 0 <= q < j ==> !Contains(ui, keywords[q])
    ensures FirstContained(ui, keywords) == Some(j)
  {
  }

  /** `search_books_by_subject` (app.py:154-199): selects a keyword, gives
      up below `ThreshSubject`, otherwise asks for the available books of
      that subject and renders them. */
  method SearchBooksBySubject(userInput: string, subjects: seq<Option<string>>,
                              lookup: string -> Option<seq<Listing>>) returns (r: Option<Answer>)
    ensures r == SubjectAnswer(userInput, subjects, lookup)
  {
    var subjectKeywords := SubjectKeywords(subjects);
    var ui := LowerStr(userInput);
    var matchedSubject, bestSimilarity := SelectSubject(ui, subjectKeywords);
    if !Truthy(matchedSubject) || bestSimilarity < ThreshSubject {
      return None;
    }
    var keyword := matchedSubject.value;
    match lookup(keyword)
    case None =>
      return None;
    case Some(results) =>
      var response := SubjectResponse(keyword, results);
      return Some(Answer(response, bestSimilarity, "subject:" + keyword));
  }
}
