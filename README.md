# Staff chatbot answer resolution, modelled in Dafny

The staff chatbot answers a school staff member's message. It tries five stages in a fixed
order:

1. It answers a short greeting through the language model's greeting prompt.
2. It consults a curated question/answer corpus loaded from a CSV file, through a lexical matcher.
3. It retrieves handbook chunks from a vector index and asks the language model a question
   grounded in them, citing handbook pages when the retrieval is confident.
4. It asks the language model an open question.
5. It gives a fixed apology.

Every answer taken from the corpus or the language model, other than a greeting reply, must
pass a quality gate. It must be present, at least 10 code points once trimmed, and free of
hedging phrases. A greeting reply only has to be non-empty.

This project models that decision logic and proves what it guarantees:

- `text.dfy` (module `Text`) holds the Python string built-ins the logic relies on:
  `isspace`, `lower`, `strip`, `split()`, `re.findall(r'\b\w+\b', …)`, substring `in`,
  `join`, `str(int)` and `sorted(set(…))`.
- `chat.dfy` (module `Chat`) covers the corpus side:
  - keyword extraction;
  - the row filter that builds the corpus;
  - the three-signal score (string similarity, keyword overlap, phrase bonus);
  - the first-best scan `FindCsvAnswer`;
  - the lookup `GetResponse`.
- `handbook_rag.dfy` (module `HandbookRag`) covers retrieval:
  - the guard clauses of the retrieval;
  - the loop fusing the hits into one context, a similarity and the cited pages;
  - the handbook-topic test.
- `app.dfy` (module `App`) covers the resolver:
  - the two confidence thresholds (0.30 each);
  - greeting detection and the quality gate;
  - the resolver `SmartResponse`.

  The language model, the corpus lookup and the retrieval enter the resolver as their
  outcomes for the message at hand. The language model is a function from prompt kind to an
  optional answer. The reply records its text, the stage that produced it and the calls made,
  in order.

The code is written in the source's own form. The loops of `load_csv_qa`, `find_csv_answer`
(including its nested phrase loop) and `get_rag_context` are methods with loop invariants.
Each is proved against a specification function (`LoadedRows`, `PhraseHits`, `Scores` with
`IsFirstMax`, `Retrieve` with `Fuse`). The pure helpers and the resolver's branching are
functions and predicates, with lemmas stating the escalation policy.

The system's design describes the resolver's corpus threshold as at least as strict as the
matcher's own. The code does otherwise, and the model follows the code. The matcher has a
0.5 floor of its own (`find_csv_answer`'s default threshold), above the resolver's 0.30. So
the resolver's corpus threshold never rejects an answer: see `App.CsvThresholdRedundant`.

## Model

| member | source | states |
|---|---|---|
| Text.Lower | chat.py:54 | lower-casing keeps the length and maps each code point on its own; whitespace and word characters are preserved |
| Text.LowerIsLowerCase | chat.py:35 | a lower-cased text has no upper-case letter, and lower-casing it again changes nothing |
| Text.Strip | chat.py:26-28 | `strip()` is the text with only whitespace removed before and after it (`s == a + r + b`, `a` and `b` all whitespace); it leaves no whitespace at either end; it is empty exactly when the text is all whitespace; it changes nothing in a text already trimmed |
| Text.StripTakesFrom | chat.py:26-28 | every code point left after trimming occurs in the text |
| Text.Runs | chat.py:54 | every token of `split()` or `findall(r'\b\w+\b')` is non-empty and made only of its class's code points |
| Text.RunsCoverSelected | chat.py:54 | the tokens, concatenated, give back exactly the text's code points of that class, in order |
| Text.RunsAfterRun | app.py:48 | a run followed by a separator is the first token, and tokenising continues after it |
| Text.RunLengthStops | chat.py:54 | a run ends where the text continues outside the class |
| Text.RunsSplitAtSeparator | app.py:48 | tokens never span a separator: the tokens of `a + [c] + b`, with `c` outside the class, are the tokens of `a` followed by those of `b` |
| Text.RunsWhole | chat.py:54 | a non-empty text made only of the class's code points is one token; with the lemma above, the tokens are exactly the maximal runs |
| Text.Contains | app.py:48 | `sub in s` holds exactly when `sub` occurs at some position of `s` |
| Text.ContainsNeedsChar | app.py:125 | a phrase cannot occur in a text lacking one of its code points |
| Text.JoinContainsParts | handbook_rag.py:226 | every joined part occurs in the joined text |
| Text.NatToStringRoundTrip | app.py:193 | `str` of a page number is a string of decimal digits that reads back as the same number |
| Text.SortedSet | app.py:193 | `sorted(set(pages))` is strictly ascending and holds exactly the distinct pages |
| Text.SortedSetOfAscending | app.py:193 | a strictly ascending page list is its own sorted set |
| Chat.ExtractKeywords | chat.py:49-57 | every keyword is a lower-case `\w` token of at least 3 code points and not a stop word |
| Chat.FilterTokensSelects | chat.py:55 | the filter keeps the qualifying tokens in their order, each exactly as often as it occurs, and nothing else |
| Chat.ExtractKeywordsSelects | chat.py:54-55 | the keywords are a subsequence of the lower-cased text's tokens, with each qualifying token's full multiplicity |
| Chat.ExtractKeywordsOfLower | chat.py:54 | keyword extraction is insensitive to letter case |
| Chat.KeepsRow | chat.py:26-32 | defines the row filter: at least two cells, both non-blank once trimmed, and not row 1 with a header label (`question`, `q`, `questions`) as its trimmed, lower-cased first cell |
| Chat.RowEntry | chat.py:27-37 | defines the entry a kept row becomes: the trimmed question lower-cased, the trimmed answer, and the keywords of the trimmed question |
| Chat.LoadedRows | chat.py:25-38 | defines the corpus: the entries of the kept rows, in file order, rows numbered from 1 |
| Chat.LoadCsvQa | chat.py:15-47 | a missing or unreadable file gives the empty corpus; otherwise the corpus is the row filter applied to the rows read, row by row |
| Chat.LoadedRowsSound | chat.py:25-38 | every loaded entry comes from a row with two non-blank cells that is not the header |
| Chat.LoadedRowsComplete | chat.py:25-38 | every row that passes the filter is loaded |
| Chat.RowEntryNormalised | chat.py:27-37 | a loaded question is trimmed, non-empty and lower-case; the answer is trimmed and non-empty; the keywords are the question's |
| Chat.LoadedEntriesNormalised | chat.py:25-38 | every entry of the corpus is normalised in that sense |
| Chat.HeaderOnlyFirstRow | chat.py:31-32 | only row 1 is treated as a header; a later row labelled `question` is loaded |
| Chat.FirstRowHeaderSkipped | chat.py:31-32 | when row 1's first cell reads `question`, `q` or `questions` in any case once trimmed, every loaded entry comes from a kept later row |
| Chat.KeywordScore | chat.py:78-81 | the keyword overlap lies in [0, 1] |
| Chat.KeywordScorePositive | chat.py:79-81 | the keyword overlap is positive exactly when the two keyword lists share a keyword |
| Chat.KeywordScoreSymmetric | chat.py:80-81 | the keyword overlap does not depend on which list is the user's |
| Chat.Fraction | chat.py:81 | the ratio of shared to longer-list keywords lies in [0, 1] and is positive exactly when something is shared |
| Chat.WordHits | chat.py:90-92 | one user word matches at most every question word once |
| Chat.PhraseScore | chat.py:83-92 | the nested loop accumulates 0.1 for each pair of a user word longer than 3 and a question word where one contains the other |
| Chat.Combine | chat.py:95 | defines the combined score: 0.4 × similarity + 0.4 × keyword overlap + 0.2 × the phrase score capped at 1 |
| Chat.CombineBounds | chat.py:95 | with the signals in range, the weighted score lies in [0, 1] |
| Chat.PhraseBonusStep | chat.py:92-95 | each phrase hit adds exactly 0.02 to the score up to the cap of ten hits, and nothing after |
| Chat.Clean | chat.py:67 | defines the query as the scan compares it: lower-cased, then trimmed |
| Chat.Score | chat.py:67-95 | an entry's combined score lies in [0, 1] |
| Chat.ScoreEntry | chat.py:75-95 | the loop body's three strategies compute the entry's combined score |
| Chat.ScoresAt | chat.py:73-95 | the scan's score for entry j is that entry's combined score |
| Chat.FirstMaxUnique | chat.py:101 | there is only one first-best position |
| Chat.ScanStep | chat.py:101-103 | a score replaces the best only when it beats both the best so far and the threshold, which keeps the best first-maximal and above the threshold |
| Chat.FindCsvAnswer | chat.py:62-110 | no answer, with confidence 0, exactly when no score exceeds both the threshold and 0; otherwise the answer of the first entry with the highest score, with that score as confidence |
| Chat.GetResponse | chat.py:176-196 | an answer is reported exactly when the first-best entry scores above 0.5 and has a non-empty answer; it is that answer with its score, and nothing is reported with confidence 0 |
| HandbookRag.SumNonNegative | handbook_rag.py:232 | the summed distances are non-negative when every distance is |
| HandbookRag.PageSetMembers | handbook_rag.py:219-222 | a page is collected exactly when some hit records it |
| HandbookRag.SimilarityRange | handbook_rag.py:236 | for a non-negative mean distance the similarity lies in (0, 1] and is 1 exactly at distance 0 |
| HandbookRag.SimilarityDecreasing | handbook_rag.py:236 | a larger mean distance gives a strictly lower similarity |
| HandbookRag.Fuse | handbook_rag.py:226-254 | defines the fusion of the hits: the texts joined by a blank line, the similarity `1 / (1 + mean distance)` and the recorded pages sorted; a mean distance of -1 gives the empty answer, as the caught division by zero does |
| HandbookRag.Retrieve | handbook_rag.py:187-260 | defines the stage: no index, no chunks, a raised search or no hits give `(None, 0.0, [])`; otherwise the fusion of the hits |
| HandbookRag.GetRagContext | handbook_rag.py:175-260 | the method, guards and loop included, returns the guard/search/fusion result of `Retrieve` |
| HandbookRag.GuardsIgnoreSearch | handbook_rag.py:187-193 | with no index or an empty one, the answer is the empty context whatever the search would return |
| HandbookRag.RetrieveNoContextOrFused | handbook_rag.py:187-260 | every answer without a context is exactly `(None, 0.0, [])`; a context is returned exactly when the index is ready and non-empty, the search returns hits, and the mean distance is not -1 |
| HandbookRag.FusedContextHoldsHits | handbook_rag.py:216-226 | the fused context contains the text of every hit |
| HandbookRag.FusedConfidence | handbook_rag.py:232-236 | with non-negative distances a context is always returned, with confidence in (0, 1] |
| HandbookRag.FusedPages | handbook_rag.py:219-254 | the returned pages are strictly ascending and are exactly the pages the hits record |
| HandbookRag.CloserHitsScoreHigher | handbook_rag.py:232-236 | hits with a smaller mean distance get a higher confidence |
| HandbookRag.HandbookQuestionIgnoresCase | handbook_rag.py:263-278 | the topic test ignores letter case |
| HandbookRag.MentionIsHandbookQuestion | handbook_rag.py:263-278 | a question that mentions a handbook phrase in any case is a handbook question |
| HandbookRag.IsHandbookQuestion | handbook_rag.py:263-278 | defines the topic test: the lower-cased question contains one of the 15 handbook phrases |
| App.IsGreeting | app.py:43-48 | defines greeting detection: the lower-cased, trimmed message contains one of the 10 greeting phrases and splits into at most 3 words |
| App.IsWeakResponse | app.py:115-126 | defines the quality gate's rejection: the response is missing or empty, shorter than 10 code points once trimmed, or contains one of the 7 hedging phrases once lower-cased |
| App.StrongResponseLength | app.py:115-117 | a response that passes the gate is present and at least 10 code points long |
| App.SmartResponse | app.py:132-223 | the reply is never empty |
| App.CallsShape | app.py:132-223 | the calls made are, in order: the greeting prompt for greetings, the corpus unless a greeting was answered, the retrieval from then on, the grounded prompt on a usable context, the open prompt when the handbook did not answer |
| App.GreetingShortCircuit | app.py:144-149 | a greeting the model answers gets that answer, with no corpus lookup, retrieval or open prompt |
| App.GreetingPromptOnlyForGreetings | app.py:144-164 | the greeting prompt is used exactly for greetings; the corpus is consulted exactly when no greeting was answered |
| App.CsvStageAcceptance | app.py:155-168 | the corpus answer is used exactly when it is present, has confidence at least 0.30 and passes the gate; the handbook is then not consulted |
| App.CsvFailuresFallThrough | app.py:155-168 | a lookup that raised or returned no pair behaves like one that found nothing |
| App.RagFailuresFallThrough | app.py:178-206 | a retrieval that raised behaves like one that returned the empty context |
| App.RagStageReached | app.py:175-179 | the handbook is consulted exactly when neither the greeting nor the corpus stage answered |
| App.GroundedCallIff | app.py:186-188 | the grounded prompt is used exactly when the handbook was consulted and returned more than 10 trimmed code points, and it gets that very context |
| App.HandbookCitationRule | app.py:186-199 | a handbook answer is the grounded answer, which passed the gate; it carries the page citation exactly when the similarity is at least 0.30 and some page was returned |
| App.AcceptedAnswersPassGate | app.py:132-216 | every answer taken from the corpus or the model, other than a greeting, passes the gate |
| App.DefaultOnlyWhenAllFail | app.py:208-223 | the apology is given exactly when no greeting was answered, the corpus answer was rejected, the grounded answer (if asked) and the open answer were weak; the open prompt was then asked |
| App.CallsFollowEscalationOrder | app.py:132-223 | the stages are tried in their fixed order, each at most once |
| App.CsvThresholdRedundant | app.py:162 | for what the lookup can report, the resolver's 0.30 test never decides: a pair is accepted exactly when its answer passes the gate |
| App.PagesText | app.py:193 | defines the page list of a citation: the distinct pages in ascending order, each written in decimal, separated by ", " |
| App.WithCitation | app.py:194 | defines the cited answer: the answer, a blank line, then `Source: Employee Handbook (Pages: …)` with that page list |
| App.CitationKeepsRetrievedOrder | app.py:193 | the citation lists the retrieved pages in the order returned, since they are already distinct and ascending |
| App.GreetingByWitness | app.py:43-48 | a trimmed lower-case message of at most three words containing a greeting phrase is a greeting |
| App.TwoWordMessage | app.py:48 | two words joined by a space split into exactly those two words |
| App.GreetingThenWord | app.py:43-48 | a greeting phrase followed by one lower-case word is a greeting |
| App.HiInsideWordIsGreeting | app.py:43-48 | greeting phrases match as substrings: any two-word lower-case message whose first word contains "hi" is a greeting |
| App.GreetingLetters | app.py:45-46 | every greeting phrase holds a g, an h or an s |
| App.CleanedLacksLetters | app.py:47 | lower-casing and trimming a message without g, h and s in either case leaves a text without g, h and s |
| App.GreetingNeedsLetter | app.py:43-48 | a message without the letters g, h and s, in either case, is never a greeting |
| App.ShortGreetingExample | app.py:43-48 | "hi" is a greeting |
| App.HeyThereIsGreeting | app.py:43-48 | "hey there" is a greeting |
| App.WhichUniformIsGreeting | app.py:43-48 | "which uniform?" is a greeting, through the "hi" inside "which" |
| App.HedgingIsWeak | app.py:115-126 | a response mentioning a hedging phrase in any case is weak |
| App.IDontKnowIsWeak | app.py:115-126 | "I don't know" is weak |
| App.AnswerWithoutNIsStrong | app.py:115-126 | a response of at least 10 trimmed code points without the letter n passes the gate, since every hedging phrase contains an n |

## Left out

- The language model client (`get_groq_response`): the HTTP request, prompts, model settings
  and time-out are outside the model. It is the function `llm` from prompt kind (greeting,
  grounded in a context, open) to an optional answer, with `None` for every failure. Each
  prompt kind is asked at most once per message, so a function suffices.
- Building the handbook index (`init_rag`, PDF loading, chunking, embeddings) and the vector
  search itself are left out. The search is the outcome `SearchOutcome` (raised, or the k = 3
  nearest hits with distances and optional page numbers). The index state is `indexReady` and
  the chunk count.
- The string similarity `difflib.SequenceMatcher(...).ratio()` is an oracle `Ratio` that
  returns a value in [0, 1]. Its matching-blocks algorithm is not modelled.
- Reading the CSV file: `LoadCsvQa` takes the rows read (`None` for a missing or unreadable
  file). A read error part-way through leaves the rows read before it, which is what the
  input then holds. CSV quoting and decoding are not modelled.
- Floating-point arithmetic is modelled with exact reals, so rounding in the weighted score,
  the 0.1 phrase increments and the similarity `1 / (1 + d)` is not captured.
- Text.Lower: `str.lower()` and the regex class `\w` are modelled on ASCII letters only. Other
  Unicode case mappings and word characters are not captured. Whitespace follows Python's full
  `isspace` set.
- Page metadata is modelled as integers. A page value of another type, or `None`, which
  Python's `sorted` could reject or order differently, is not captured.
- Logging, the `print` diagnostics and the stack traces of caught errors are not modelled.
- The Flask routes, chat history storage (`db.py`, `firebase.py`), the front-end scripts, the
  interactive loop of `chat.py` and the test routes of `app.py` are not part of this model.
- The module-level state (`csv_qa_pairs`, `vector_db`, `chunks`) is passed in as parameters:
  the corpus, the index state and the search outcome.
- App.SmartResponse: its own contract states only that the reply is never empty. The
  escalation policy is stated by the lemmas beside it.
