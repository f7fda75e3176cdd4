/**
 * The lexical matcher over the curated question/answer corpus: keyword extraction,
 * the row filter that builds the corpus from the rows of the CSV file, the three-signal
 * score and the first-best scan over the corpus.
 */
module Chat {
  import opened Wrappers
  import opened Text

  /** The stop words that keyword extraction drops. */
  const StopWords: set<string> := {
    "what", "how", "where", "when", "why", "who", "is", "are", "can", "do", "does",
    "the", "a", "an", "and", "or", "but", "in", "on", "at", "to", "for", "of", "with", "by", "i", "my"
  }

  /** The filter a lower-cased token must pass to be a keyword. */
  predicate KeepsToken(w: string) {
    |w| > 2 && w !in StopWords
  }

  /** What every extracted keyword is: a lower-case `\w+` token of 3 or more code points, not a stop word. */
  predicate IsKeyword(w: string) {
    KeepsToken(w) && forall i :: 0 <= i < |w| ==> IsWordChar(w[i]) && !IsUpper(w[i])
  }

  function FilterTokens(tokens: seq<string>): seq<string> {
    if tokens == [] then []
    else (if KeepsToken(tokens[0]) then [tokens[0]] else []) + FilterTokens(tokens[1..])
  }

  /** Keyword extraction: the word tokens of the lower-cased text that pass the filter. */
  function ExtractKeywords(text: string): (r: seq<string>)
    ensures forall k :: 0 <= k < |r| ==> IsKeyword(r[k])
  {
    var tokens := WordTokens(Lower(text));
    FilterTokensSelects(tokens);
    forall k | 0 <= k < |tokens| ensures forall i :: 0 <= i < |tokens[k]| ==> !IsUpper(tokens[k][i]) {
      RunsTakeFrom(Lower(text), IsWordChar, k);
    }
    FilterTokens(tokens)
  }

  /** `a` is `b` with some elements left out, the rest in their original order. */
  predicate IsSubsequence<T(==)>(a: seq<T>, b: seq<T>) {
    if a == [] then true
    else if b == [] then false
    else (a[0] == b[0] && IsSubsequence(a[1..], b[1..])) || IsSubsequence(a, b[1..])
  }

  /**
   * The token filter keeps source order and duplicates: its result is a subsequence of
   * the tokens, and every token that passes occurs in it exactly as often as among the tokens.
   */
  lemma {:induction false} FilterTokensSelects(tokens: seq<string>)
    ensures IsSubsequence(FilterTokens(tokens), tokens)
    ensures forall w :: multiset(FilterTokens(tokens))[w] == if KeepsToken(w) then multiset(tokens)[w] else 0
    ensures forall w :: w in FilterTokens(tokens) ==> w in tokens && KeepsToken(w)
  {
    if tokens != [] {
      var rest := FilterTokens(tokens[1..]);
      FilterTokensSelects(tokens[1..]);
      assert tokens == [tokens[0]] + tokens[1..];
      if KeepsToken(tokens[0]) {
        assert FilterTokens(tokens) == [tokens[0]] + rest;
        assert FilterTokens(tokens)[1..] == rest;
      } else {
        assert FilterTokens(tokens) == rest;
        assert rest != [] ==> IsSubsequence(rest, tokens[1..]);
      }
    }
  }

  /** Keyword extraction keeps exactly the qualifying tokens, in order and with their repetitions. */
  lemma ExtractKeywordsSelects(text: string)
    ensures IsSubsequence(ExtractKeywords(text), WordTokens(Lower(text)))
    ensures forall w :: multiset(ExtractKeywords(text))[w] ==
                        if KeepsToken(w) then multiset(WordTokens(Lower(text)))[w] else 0
  {
    FilterTokensSelects(WordTokens(Lower(text)));
  }

  /** Keyword extraction reads its text case-insensitively. */
  lemma ExtractKeywordsOfLower(text: string)
    ensures ExtractKeywords(Lower(text)) == ExtractKeywords(text)
  {
    LowerIsLowerCase(text);
  }

  // ---------------------------------------------------------------------------
  // Corpus loading
  // ---------------------------------------------------------------------------

  /** One CSV row: its cells. */
  type Row = seq<string>

  /** One corpus entry: the normalised question, the answer and the question's keywords. */
  datatype QaEntry = QaEntry(question: string, answer: string, keywords: seq<string>)

  /** The first-cell labels that mark row 1 as a header. */
  const HeaderLabels: set<string> := {"question", "q", "questions"}

  /** Whether the row with 1-based number `rowNum` becomes a corpus entry. */
  predicate KeepsRow(rowNum: nat, row: Row) {
    && |row| >= 2 && Strip(row[0]) != [] && Strip(row[1]) != []
    && !(rowNum == 1 && Lower(Strip(row[0])) in HeaderLabels)
  }

  /** The entry a kept row becomes. */
  function RowEntry(row: Row): QaEntry
    requires |row| >= 2
  {
    var question := Strip(row[0]);
    QaEntry(Lower(question), Strip(row[1]), ExtractKeywords(question))
  }

  /** The corpus built from `rows`, numbered from 1 (specification of the loading loop). */
  function LoadedRows(rows: seq<Row>): seq<QaEntry>
    decreases |rows|
  {
    if rows == [] then []
    else
      var last := rows[|rows| - 1];
      LoadedRows(rows[..|rows| - 1]) + (if KeepsRow(|rows|, last) then [RowEntry(last)] else [])
  }

  /**
   * Loading the corpus. `file` holds the rows read from the CSV file; `None` stands for a
   * file that is missing or unreadable from the start. A read error part-way through
   * leaves the rows read before it, which is what `file` then holds.
   */
  method LoadCsvQa(file: Option<seq<Row>>) returns (qaPairs: seq<QaEntry>)
    ensures file.None? ==> qaPairs == []
    ensures file.Some? ==> qaPairs == LoadedRows(file.value)
  {
    // The loop matches the row filter clause by clause; what the string functions compute is not needed.
    hide Strip, Lower, ExtractKeywords;
    qaPairs := [];
    if file.Some? {
      var rows := file.value;
      for rowNum := 1 to |rows| + 1
        invariant qaPairs == LoadedRows(rows[..rowNum - 1])
      {
        var row := rows[rowNum - 1];
        LoadedRowsStep(rows, rowNum - 1);
        if |row| >= 2 && Strip(row[0]) != [] && Strip(row[1]) != [] {
          var question := Strip(row[0]);
          var answer := Strip(row[1]);
          if rowNum == 1 && Lower(question) in HeaderLabels {
            continue;
          }
          qaPairs := qaPairs + [QaEntry(Lower(question), answer, ExtractKeywords(question))];
        }
      }
      assert rows[..|rows|] == rows;
    }
  }

  lemma LoadedRowsStep(rows: seq<Row>, n: nat)
    requires n < |rows|
    ensures LoadedRows(rows[..n + 1])
      == LoadedRows(rows[..n]) + (if KeepsRow(n + 1, rows[n]) then [RowEntry(rows[n])] else [])
  {
    assert rows[..n + 1][..n] == rows[..n];
  }

  /** Every loaded entry comes from a kept row. */
  lemma {:induction false} LoadedRowsSound(rows: seq<Row>, e: QaEntry)
    requires e in LoadedRows(rows)
    ensures exists i :: 0 <= i < |rows| && KeepsRow(i + 1, rows[i]) && e == RowEntry(rows[i])
    decreases |rows|
  {
    var n := |rows|;
    var last := rows[n - 1];
    if e in LoadedRows(rows[..n - 1]) {
      LoadedRowsSound(rows[..n - 1], e);
      var i :| 0 <= i < n - 1 && KeepsRow(i + 1, rows[..n - 1][i]) && e == RowEntry(rows[..n - 1][i]);
      assert rows[i] == rows[..n - 1][i];
    } else {
      assert KeepsRow(n, last) && e == RowEntry(last);
    }
  }

  /** Every kept row is loaded. */
  lemma {:induction false} LoadedRowsComplete(rows: seq<Row>, i: nat)
    requires i < |rows| && KeepsRow(i + 1, rows[i])
    ensures RowEntry(rows[i]) in LoadedRows(rows)
    decreases |rows|
  {
    hide KeepsRow, RowEntry;
    var n := |rows|;
    if i < n - 1 {
      LoadedRowsComplete(rows[..n - 1], i);
      assert rows[..n - 1][i] == rows[i];
    }
  }

  /** A kept row becomes a normalised entry: trimmed lower-case question, trimmed answer, its keywords. */
  lemma RowEntryNormalised(row: Row)
    requires |row| >= 2 && Strip(row[0]) != [] && Strip(row[1]) != []
    ensures var e := RowEntry(row);
      && e.question != [] && Strip(e.question) == e.question && Lower(e.question) == e.question
      && e.answer != [] && Strip(e.answer) == e.answer
      && e.keywords == ExtractKeywords(e.question)
  {
    var q := Strip(row[0]);
    LowerIsLowerCase(q);
    assert IsStripped(Lower(q));
    ExtractKeywordsOfLower(q);
  }

  /** Every loaded entry is normalised. */
  lemma LoadedEntriesNormalised(rows: seq<Row>, e: QaEntry)
    requires e in LoadedRows(rows)
    ensures e.question != [] && Strip(e.question) == e.question && Lower(e.question) == e.question
    ensures e.answer != [] && Strip(e.answer) == e.answer
    ensures e.keywords == ExtractKeywords(e.question)
  {
    LoadedRowsSound(rows, e);
    var i :| 0 <= i < |rows| && KeepsRow(i + 1, rows[i]) && e == RowEntry(rows[i]);
    RowEntryNormalised(rows[i]);
  }

  /** Only row 1 can be skipped as a header; any later row with a header label is kept. */
  lemma HeaderOnlyFirstRow(rows: seq<Row>, i: nat)
    requires 1 <= i < |rows|
    requires |rows[i]| >= 2 && Strip(rows[i][0]) != [] && Strip(rows[i][1]) != []
    ensures RowEntry(rows[i]) in LoadedRows(rows)
  {
    LoadedRowsComplete(rows, i);
  }

  /** Row 1 with a header label in its first cell is never loaded: every entry comes from a later row. */
  lemma FirstRowHeaderSkipped(rows: seq<Row>, e: QaEntry)
    requires rows != [] && |rows[0]| >= 2 && Lower(Strip(rows[0][0])) in HeaderLabels
    requires e in LoadedRows(rows)
    ensures exists i :: 1 <= i < |rows| && KeepsRow(i + 1, rows[i]) && e == RowEntry(rows[i])
  {
    LoadedRowsSound(rows, e);
  }

  // ---------------------------------------------------------------------------
  // Scoring
  // ---------------------------------------------------------------------------

  /** `SequenceMatcher(None, a, b).ratio()`: an oracle whose value lies in [0, 1]. */
  type Ratio = f: (string, string) -> real | forall a, b :: 0.0 <= f(a, b) <= 1.0
    witness (a: string, b: string) => 0.0

  function Distinct(ws: seq<string>): set<string> {
    set w | w in ws
  }

  lemma {:induction false} DistinctBound(ws: seq<string>)
    ensures |Distinct(ws)| <= |ws|
  {
    if ws != [] {
      DistinctBound(ws[1..]);
      assert Distinct(ws) == {ws[0]} + Distinct(ws[1..]);
    }
  }

  lemma IntersectionBound(a: set<string>, b: set<string>)
    ensures |a * b| <= |a| && |a * b| <= |b|
  {
    assert a == (a * b) + (a - b);
    assert (a * b) * (a - b) == {};
    assert b == (a * b) + (b - a);
    assert (a * b) * (b - a) == {};
  }

  function Max(a: int, b: int): int {
    if a < b then b else a
  }

  function MinReal(a: real, b: real): real {
    if a < b then a else b
  }

  /**
   * Keyword overlap: shared distinct keywords over the longer keyword list, 0 when
   * either list is empty.
   */
  function KeywordScore(user: seq<string>, entry: seq<string>): (r: real)
    ensures 0.0 <= r <= 1.0
  {
    if user == [] || entry == [] then 0.0
    else
      var shared := Distinct(user) * Distinct(entry);
      DistinctBound(user);
      DistinctBound(entry);
      IntersectionBound(Distinct(user), Distinct(entry));
      Fraction(|shared|, Max(|user|, |entry|))
  }

  /** The keyword score is positive exactly when the two lists share a keyword. */
  lemma KeywordScorePositive(user: seq<string>, entry: seq<string>)
    ensures KeywordScore(user, entry) > 0.0 <==> exists w :: w in user && w in entry
  {
    if user != [] && entry != [] {
      SharedKeywords(user, entry);
    }
  }

  lemma SharedKeywords(user: seq<string>, entry: seq<string>)
    ensures Distinct(user) * Distinct(entry) != {} <==> exists w :: w in user && w in entry
  {
    var shared := Distinct(user) * Distinct(entry);
    forall w | w in user && w in entry ensures w in shared { }
    if shared != {} {
      if forall w :: w !in shared {
        assert false;
      }
      var w :| w in shared;
      assert w in user && w in entry;
    }
  }

  /** `n / d` as a real, for `0 <= n <= d` and `d > 0`. */
  function Fraction(n: nat, d: nat): (r: real)
    requires 0 < d && n <= d
    ensures 0.0 <= r <= 1.0
    ensures r > 0.0 <==> n > 0
  {
    assert (n as real) / (d as real) * (d as real) == n as real;
    (n as real) / (d as real)
  }

  lemma KeywordScoreSymmetric(a: seq<string>, b: seq<string>)
    ensures KeywordScore(a, b) == KeywordScore(b, a)
  {
    assert Distinct(a) * Distinct(b) == Distinct(b) * Distinct(a);
  }

  /** Whether a user word and a question word match for the phrase bonus: either contains the other. */
  predicate PhraseMatch(userWord: string, qaWord: string) {
    Contains(qaWord, userWord) || Contains(userWord, qaWord)
  }

  /** Number of question words that `userWord` matches. */
  function WordHits(userWord: string, qaWords: seq<string>): (n: nat)
    ensures n <= |qaWords|
    decreases |qaWords|
  {
    if qaWords == [] then 0
    else
      var last := qaWords[|qaWords| - 1];
      WordHits(userWord, qaWords[..|qaWords| - 1]) + (if PhraseMatch(userWord, last) then 1 else 0)
  }

  /** Number of (user word longer than 3, question word) pairs that match. */
  function PhraseHits(userWords: seq<string>, qaWords: seq<string>): (n: nat)
    decreases |userWords|
  {
    if userWords == [] then 0
    else
      var last := userWords[|userWords| - 1];
      var rest := userWords[..|userWords| - 1];
      PhraseHits(rest, qaWords) + (if |last| > 3 then WordHits(last, qaWords) else 0)
  }

  /** The phrase score accumulated by the nested loop: 0.1 per matching pair. */
  method PhraseScore(userWords: seq<string>, qaWords: seq<string>) returns (score: real)
    ensures score == 0.1 * PhraseHits(userWords, qaWords) as real
  {
    score := 0.0;
    for i := 0 to |userWords|
      invariant score == 0.1 * PhraseHits(userWords[..i], qaWords) as real
    {
      var userWord := userWords[i];
      assert userWords[..i + 1][..i] == userWords[..i];
      if |userWord| > 3 {
        ghost var before := score;
        for j := 0 to |qaWords|
          invariant score == before + 0.1 * WordHits(userWord, qaWords[..j]) as real
        {
          var qaWord := qaWords[j];
          assert qaWords[..j + 1][..j] == qaWords[..j];
          if Contains(qaWord, userWord) || Contains(userWord, qaWord) {
            score := score + 0.1;
          }
        }
        assert qaWords[..|qaWords|] == qaWords;
      }
    }
    assert userWords[..|userWords|] == userWords;
  }

  /** The weighted combination of the three signals, the phrase score capped at 1. */
  function Combine(similarity: real, keywordScore: real, phraseScore: real): real {
    similarity * 0.4 + keywordScore * 0.4 + MinReal(phraseScore, 1.0) * 0.2
  }

  /** With its inputs in range the combined score lies in [0, 1]. */
  lemma CombineBounds(similarity: real, keywordScore: real, phraseScore: real)
    requires 0.0 <= similarity <= 1.0 && 0.0 <= keywordScore <= 1.0 && 0.0 <= phraseScore
    ensures 0.0 <= Combine(similarity, keywordScore, phraseScore) <= 1.0
  {
  }

  /** Each phrase hit below the cap of ten raises the combined score by exactly 0.02; beyond it, nothing. */
  lemma PhraseBonusStep(similarity: real, keywordScore: real, hits: nat)
    ensures hits < 10 ==>
      Combine(similarity, keywordScore, 0.1 * (hits + 1) as real)
        == Combine(similarity, keywordScore, 0.1 * hits as real) + 0.02
    ensures hits >= 10 ==>
      Combine(similarity, keywordScore, 0.1 * (hits + 1) as real)
        == Combine(similarity, keywordScore, 0.1 * hits as real)
  {
  }

  /** The query as the scan compares it: lower-cased, then trimmed. */
  function Clean(userInput: string): string {
    Strip(Lower(userInput))
  }

  /** The combined score of one corpus entry against the query. */
  function Score(userInput: string, entry: QaEntry, ratio: Ratio): (r: real)
    ensures 0.0 <= r <= 1.0
  {
    var clean := Clean(userInput);
    var phrase := 0.1 * PhraseHits(Words(clean), Words(entry.question)) as real;
    CombineBounds(ratio(clean, entry.question), KeywordScore(ExtractKeywords(userInput), entry.keywords), phrase);
    Combine(ratio(clean, entry.question), KeywordScore(ExtractKeywords(userInput), entry.keywords), phrase)
  }

  /** The three strategies of the scan for one entry, the query's derived forms computed once by the caller. */
  method ScoreEntry(userInput: string, clean: string, userKeywords: seq<string>, userWords: seq<string>,
                    qaPair: QaEntry, ratio: Ratio)
    returns (combinedScore: real)
    requires clean == Clean(userInput) && userKeywords == ExtractKeywords(userInput) && userWords == Words(clean)
    ensures combinedScore == Score(userInput, qaPair, ratio)
  {
    var similarity := ratio(clean, qaPair.question);
    var keywordScore := KeywordScore(userKeywords, qaPair.keywords);
    var phraseScore := PhraseScore(userWords, Words(qaPair.question));
    combinedScore := Combine(similarity, keywordScore, phraseScore);
  }

  /** The scores of the corpus entries against the query, in corpus order. */
  ghost function Scores(corpus: seq<QaEntry>, userInput: string, ratio: Ratio): (r: seq<real>)
    ensures |r| == |corpus|
    decreases |corpus|
  {
    if corpus == [] then []
    else Scores(corpus[..|corpus| - 1], userInput, ratio) + [Score(userInput, corpus[|corpus| - 1], ratio)]
  }

  lemma {:induction false} ScoresAt(corpus: seq<QaEntry>, userInput: string, ratio: Ratio, j: int)
    requires 0 <= j < |corpus|
    ensures Scores(corpus, userInput, ratio)[j] == Score(userInput, corpus[j], ratio)
    decreases |corpus|
  {
    if j < |corpus| - 1 {
      ScoresAt(corpus[..|corpus| - 1], userInput, ratio, j);
    }
  }

  /** Position `k` holds the maximum of `s`, and no earlier position reaches it. */
  predicate IsFirstMax(s: seq<real>, k: int) {
    && 0 <= k < |s|
    && (forall j :: 0 <= j < |s| ==> s[j] <= s[k])
    && (forall j :: 0 <= j < k ==> s[j] < s[k])
  }

  lemma FirstMaxUnique(s: seq<real>, k: int, k': int)
    requires IsFirstMax(s, k) && IsFirstMax(s, k')
    ensures k == k'
  {
    assert s[k] <= s[k'] && s[k'] <= s[k];
  }

  /** Entry `k` has the highest score, and no earlier entry reaches it. */
  ghost predicate IsFirstBest(corpus: seq<QaEntry>, userInput: string, ratio: Ratio, k: int) {
    IsFirstMax(Scores(corpus, userInput, ratio), k)
  }

  /** Whether a score clears the scan's acceptance test (above the threshold and above 0). */
  predicate Clears(score: real, threshold: real) {
    score > threshold && score > 0.0
  }

  /**
   * What the scan knows after scoring a prefix of the corpus: with no match yet, no score so
   * far clears the threshold; with a match, it is the first best score so far and clears it.
   */
  predicate ScanState(scores: seq<real>, found: bool, bestIndex: int, bestScore: real, threshold: real) {
    if found then IsFirstMax(scores, bestIndex) && bestScore == scores[bestIndex] && Clears(bestScore, threshold)
    else bestScore == 0.0 && forall j :: 0 <= j < |scores| ==> !Clears(scores[j], threshold)
  }

  /** One step of the scan: a score replaces the best only when it beats it and the threshold. */
  lemma ScanStep(scores: seq<real>, found: bool, bestIndex: int, bestScore: real, s: real, threshold: real)
    requires ScanState(scores, found, bestIndex, bestScore, threshold)
    ensures s > bestScore && s > threshold ==> ScanState(scores + [s], true, |scores|, s, threshold)
    ensures !(s > bestScore && s > threshold) ==> ScanState(scores + [s], found, bestIndex, bestScore, threshold)
  {
    var next := scores + [s];
    assert forall j :: 0 <= j < |scores| ==> next[j] == scores[j];
  }

  /**
   * The first-best scan. The running best starts at 0, and an entry replaces it only when
   * its score is strictly above both the running best and `threshold`; ties keep the
   * earlier entry.
   */
  method FindCsvAnswer(corpus: seq<QaEntry>, userInput: string, threshold: real, ratio: Ratio)
    returns (answer: Option<string>, confidence: real)
    ensures answer.None? <==>
      forall i :: 0 <= i < |corpus| ==> !Clears(Scores(corpus, userInput, ratio)[i], threshold)
    ensures answer.None? ==> confidence == 0.0
    ensures answer.Some? ==> exists k ::
      && IsFirstBest(corpus, userInput, ratio, k)
      && answer.value == corpus[k].answer
      && confidence == Scores(corpus, userInput, ratio)[k]
      && Clears(confidence, threshold)
  {
    // The scan needs only that each computed score is the entry's score, not how it is computed.
    hide Score;
    var clean := Clean(userInput);
    var userKeywords := ExtractKeywords(userInput);
    var userWords := Words(clean);
    ghost var scores: seq<real> := [];
    var bestMatch: Option<QaEntry> := None;
    var bestScore := 0.0;
    ghost var bestIndex := 0;
    for i := 0 to |corpus|
      invariant scores == Scores(corpus[..i], userInput, ratio)
      invariant ScanState(scores, bestMatch.Some?, bestIndex, bestScore, threshold)
      invariant bestMatch.Some? ==> bestMatch.value == corpus[bestIndex]
    {
      var qaPair := corpus[i];
      var combinedScore := ScoreEntry(userInput, clean, userKeywords, userWords, qaPair, ratio);
      assert corpus[..i + 1][..i] == corpus[..i];
      ScanStep(scores, bestMatch.Some?, bestIndex, bestScore, combinedScore, threshold);
      scores := scores + [combinedScore];
      if combinedScore > bestScore && combinedScore > threshold {
        bestScore := combinedScore;
        bestMatch := Some(qaPair);
        bestIndex := i;
      }
    }
    assert corpus[..|corpus|] == corpus;
    if bestMatch.Some? {
      answer, confidence := Some(bestMatch.value.answer), bestScore;
    } else {
      answer, confidence := None, 0.0;
    }
  }

  /** The matcher's own acceptance threshold. */
  const DefaultThreshold: real := 0.5

  /**
   * The CSV lookup: the scan at the default threshold, keeping a hit only when its answer
   * is non-empty and its confidence positive.
   */
  method GetResponse(corpus: seq<QaEntry>, msg: string, ratio: Ratio)
    returns (answer: Option<string>, confidence: real)
    ensures answer.None? ==> confidence == 0.0
    ensures answer.Some? ==> answer.value != [] && confidence > DefaultThreshold
    ensures answer.Some? ==> exists k ::
      && IsFirstBest(corpus, msg, ratio, k)
      && answer.value == corpus[k].answer
      && confidence == Scores(corpus, msg, ratio)[k]
    ensures answer.Some? <==> exists k ::
      && IsFirstBest(corpus, msg, ratio, k)
      && Scores(corpus, msg, ratio)[k] > DefaultThreshold
      && corpus[k].answer != []
  {
    var csvAnswer, csvConfidence := FindCsvAnswer(corpus, msg, DefaultThreshold, ratio);
    ghost var scores := Scores(corpus, msg, ratio);
    assert csvAnswer.None? <==> forall i :: 0 <= i < |corpus| ==> !Clears(Scores(corpus, msg, ratio)[i], DefaultThreshold);
    if csvAnswer.Some? && csvAnswer.value != [] && csvConfidence > 0.0 {
      answer, confidence := csvAnswer, csvConfidence;
    } else {
      answer, confidence := None, 0.0;
      forall k | IsFirstBest(corpus, msg, ratio, k) && scores[k] > DefaultThreshold
        ensures corpus[k].answer == []
      {
        assert 0 <= k < |corpus| && Clears(scores[k], DefaultThreshold);
        var k' :| IsFirstBest(corpus, msg, ratio, k') && csvAnswer.value == corpus[k'].answer;
        FirstMaxUnique(scores, k, k');
      }
    }
  }
}
