/**
 * The response resolver: greeting detection, the quality gate on candidate answers and the
 * escalation from greeting to corpus lookup, to the handbook with a grounded generation, to
 * open generation, to the fixed default answer. The generator, the corpus lookup and the
 * handbook retrieval enter as their outcomes for the message at hand.
 */
module App {
  import opened Wrappers
  import opened Text
  import Chat
  import opened HandbookRag

  /** Minimum confidence for a corpus answer to be used. */
  const CsvConfidenceThreshold: real := 0.30

  /** Minimum retrieval similarity for a handbook answer to carry a page citation. */
  const RagConfidenceThreshold: real := 0.30

  // ---------------------------------------------------------------------------
  // Greeting detection and the quality gate
  // ---------------------------------------------------------------------------

  const Greetings: seq<string> := [
    "hi", "hello", "hey", "good morning", "good afternoon",
    "good evening", "greetings", "howdy", "sup", "what's up"
  ]

  /** A greeting: the trimmed lower-cased message contains a greeting phrase and has at most 3 words. */
  predicate IsGreeting(message: string) {
    var msgLower := Strip(Lower(message));
    ContainsAny(msgLower, Greetings) && |Words(msgLower)| <= 3
  }

  const WeakPhrases: seq<string> := [
    "i do not understand", "i don't understand", "i don't know",
    "not sure", "i can't help", "unclear", "i'm not trained"
  ]

  /** Python truthiness of an optional string: present and non-empty. */
  predicate Truthy(response: Option<string>) {
    response.Some? && response.value != []
  }

  /** The quality gate: missing, shorter than 10 code points once trimmed, or hedging. */
  predicate IsWeakResponse(response: Option<string>) {
    || !Truthy(response)
    || |Strip(response.value)| < 10
    || ContainsAny(Lower(response.value), WeakPhrases)
  }

  /** A response the gate accepts has at least 10 code points. */
  lemma StrongResponseLength(response: Option<string>)
    requires !IsWeakResponse(response)
    ensures response.Some? && |response.value| >= 10
  {
  }

  // ---------------------------------------------------------------------------
  // The stages' outcomes
  // ---------------------------------------------------------------------------

  /** The generator's three prompts: greeting, grounded in a handbook context, open. */
  datatype LlmMode = GreetingMode | GroundedMode(context: string) | OpenMode

  /** What the corpus lookup did: raised, returned something other than a pair, or returned a pair. */
  datatype CsvOutcome = CsvRaised | CsvNonTuple | CsvPair(answer: Option<string>, confidence: real)

  /** What the handbook retrieval did: raised, or returned its context, similarity and pages. */
  datatype RagOutcome = RagRaised | RagReturned(result: RagContext)

  /** A call the resolver makes while answering. */
  datatype Call = LlmCall(mode: LlmMode) | CsvCall | RagCall

  /** Which stage produced the reply. */
  datatype Source = GreetingReply | CsvAnswer | HandbookCited | HandbookUncited | OpenAnswer | DefaultAnswer

  /** The reply text, the stage that produced it and the calls made, in order. */
  datatype Reply = Reply(text: string, source: Source, calls: seq<Call>)

  const DefaultReply: string :=
    "I'm sorry, I couldn't find a specific answer to your question. "
    + "Please try rephrasing or contact Greensprings School support for assistance."

  /** The corpus stage's acceptance test. */
  predicate CsvAccepted(csv: CsvOutcome) {
    && csv.CsvPair?
    && Truthy(csv.answer)
    && csv.confidence >= CsvConfidenceThreshold
    && !IsWeakResponse(csv.answer)
  }

  /** Whether the retrieval returned a context worth grounding on: more than 10 code points once trimmed. */
  predicate HasUsableContext(rag: RagOutcome) {
    rag.RagReturned? && Truthy(rag.result.context) && |Strip(rag.result.context.value)| > 10
  }

  /** Whether a handbook answer carries a citation. */
  predicate Cites(result: RagContext) {
    result.confidence >= RagConfidenceThreshold && result.pages != []
  }

  function IntStrings(xs: seq<int>): (r: seq<string>)
    ensures |r| == |xs|
    ensures forall i :: 0 <= i < |xs| ==> r[i] == IntToString(xs[i])
  {
    seq(|xs|, i requires 0 <= i < |xs| => IntToString(xs[i]))
  }

  /** `", ".join(map(str, sorted(set(pages))))` */
  function PagesText(pages: seq<int>): string {
    Join(IntStrings(SortedSet(set p | p in pages)), ", ")
  }

  /** A grounded answer followed by its page citation. */
  function WithCitation(answer: string, pages: seq<int>): string {
    answer + "\n\nSource: Employee Handbook (Pages: " + PagesText(pages) + ")"
  }

  /** Whether the grounded generation exists and passes the gate. */
  predicate GroundedAccepted(llm: LlmMode -> Option<string>, rag: RagOutcome) {
    && HasUsableContext(rag)
    && Truthy(llm(GroundedMode(rag.result.context.value)))
    && !IsWeakResponse(llm(GroundedMode(rag.result.context.value)))
  }

  // ---------------------------------------------------------------------------
  // The resolver
  // ---------------------------------------------------------------------------

  /**
   * The reply to `message`. `llm` gives the generator's answer for each prompt (`None` on
   * any failure), `csv` what the corpus lookup did and `rag` what the handbook retrieval did.
   */
  function SmartResponse(message: string, llm: LlmMode -> Option<string>, csv: CsvOutcome, rag: RagOutcome): (r: Reply)
    ensures r.text != []
  {
    var greeting := IsGreeting(message);
    if greeting && Truthy(llm(GreetingMode)) then
      Reply(llm(GreetingMode).value, GreetingReply, [LlmCall(GreetingMode)])
    else
      var csvCalls := (if greeting then [LlmCall(GreetingMode)] else []) + [CsvCall];
      if CsvAccepted(csv) then
        Reply(csv.answer.value, CsvAnswer, csvCalls)
      else
        var ragCalls := csvCalls + [RagCall];
        if GroundedAccepted(llm, rag) then
          var calls := ragCalls + [LlmCall(GroundedMode(rag.result.context.value))];
          var answer := llm(GroundedMode(rag.result.context.value)).value;
          if Cites(rag.result) then Reply(WithCitation(answer, rag.result.pages), HandbookCited, calls)
          else Reply(answer, HandbookUncited, calls)
        else
          var calls := ragCalls
            + (if HasUsableContext(rag) then [LlmCall(GroundedMode(rag.result.context.value))] else [])
            + [LlmCall(OpenMode)];
          if Truthy(llm(OpenMode)) && !IsWeakResponse(llm(OpenMode)) then
            Reply(llm(OpenMode).value, OpenAnswer, calls)
          else
            Reply(DefaultReply, DefaultAnswer, calls)
  }

  // ---------------------------------------------------------------------------
  // The escalation policy
  // ---------------------------------------------------------------------------

  /** Whether the resolver got past the greeting stage. */
  predicate PastGreeting(message: string, llm: LlmMode -> Option<string>) {
    !(IsGreeting(message) && Truthy(llm(GreetingMode)))
  }

  /** Whether the resolver got to the handbook stage. */
  predicate ReachesRag(message: string, llm: LlmMode -> Option<string>, csv: CsvOutcome) {
    PastGreeting(message, llm) && !CsvAccepted(csv)
  }

  /** Whether the resolver got to the open generation. */
  predicate ReachesOpen(message: string, llm: LlmMode -> Option<string>, csv: CsvOutcome, rag: RagOutcome) {
    ReachesRag(message, llm, csv) && !GroundedAccepted(llm, rag)
  }

  /** The calls the resolver makes, stage by stage. */
  lemma CallsShape(message: string, llm: LlmMode -> Option<string>, csv: CsvOutcome, rag: RagOutcome)
    ensures SmartResponse(message, llm, csv, rag).calls
      == (if IsGreeting(message) then [LlmCall(GreetingMode)] else [])
       + (if PastGreeting(message, llm) then [CsvCall] else [])
       + (if ReachesRag(message, llm, csv) then [RagCall] else [])
       + (if ReachesRag(message, llm, csv) && HasUsableContext(rag)
          then [LlmCall(GroundedMode(rag.result.context.value))] else [])
       + (if ReachesOpen(message, llm, csv, rag) then [LlmCall(OpenMode)] else [])
  {
    hide IsGreeting, IsWeakResponse, WithCitation;
  }

  /** A greeting the generator answers is answered at once: no corpus lookup, no retrieval. */
  lemma GreetingShortCircuit(message: string, llm: LlmMode -> Option<string>, csv: CsvOutcome, rag: RagOutcome)
    requires IsGreeting(message) && Truthy(llm(GreetingMode))
    ensures var r := SmartResponse(message, llm, csv, rag);
      && r.source == GreetingReply && r.text == llm(GreetingMode).value
      && CsvCall !in r.calls && RagCall !in r.calls && LlmCall(OpenMode) !in r.calls
  {
    hide IsGreeting, IsWeakResponse, WithCitation;
  }

  /** The greeting prompt is used for greetings only, and the corpus is consulted unless a greeting was answered. */
  lemma GreetingPromptOnlyForGreetings(message: string, llm: LlmMode -> Option<string>, csv: CsvOutcome, rag: RagOutcome)
    ensures var r := SmartResponse(message, llm, csv, rag);
      LlmCall(GreetingMode) in r.calls <==> IsGreeting(message)
    ensures var r := SmartResponse(message, llm, csv, rag);
      CsvCall in r.calls <==> PastGreeting(message, llm)
  {
    hide IsGreeting, IsWeakResponse, WithCitation;
  }

  /**
   * The corpus answer is used exactly when the greeting stage did not answer and the lookup
   * returned a present answer with confidence at least 0.30 that passes the gate; the
   * handbook is then never consulted.
   */
  lemma CsvStageAcceptance(message: string, llm: LlmMode -> Option<string>, csv: CsvOutcome, rag: RagOutcome)
    ensures var r := SmartResponse(message, llm, csv, rag);
      r.source == CsvAnswer <==> PastGreeting(message, llm) && CsvAccepted(csv)
    ensures var r := SmartResponse(message, llm, csv, rag);
      r.source == CsvAnswer ==> r.text == csv.answer.value && RagCall !in r.calls && !IsWeakResponse(Some(r.text))
  {
    hide IsGreeting, IsWeakResponse, WithCitation;
  }

  /** A lookup that raised or returned no pair is treated like one that found nothing. */
  lemma CsvFailuresFallThrough(message: string, llm: LlmMode -> Option<string>, rag: RagOutcome)
    ensures SmartResponse(message, llm, CsvRaised, rag) == SmartResponse(message, llm, CsvPair(None, 0.0), rag)
    ensures SmartResponse(message, llm, CsvNonTuple, rag) == SmartResponse(message, llm, CsvPair(None, 0.0), rag)
  {
    hide IsGreeting, IsWeakResponse, WithCitation;
  }

  /** A retrieval that raised is treated like one that found nothing. */
  lemma RagFailuresFallThrough(message: string, llm: LlmMode -> Option<string>, csv: CsvOutcome)
    ensures SmartResponse(message, llm, csv, RagRaised) == SmartResponse(message, llm, csv, RagReturned(NoContext))
  {
    hide IsGreeting, IsWeakResponse, WithCitation;
  }

  /** The handbook is consulted exactly when neither the greeting nor the corpus stage answered. */
  lemma RagStageReached(message: string, llm: LlmMode -> Option<string>, csv: CsvOutcome, rag: RagOutcome)
    ensures var r := SmartResponse(message, llm, csv, rag);
      RagCall in r.calls <==> PastGreeting(message, llm) && !CsvAccepted(csv)
  {
    hide IsGreeting, IsWeakResponse, WithCitation;
  }

  /**
   * The grounded prompt is used exactly when the handbook was consulted and returned a
   * usable context, whatever its similarity, and it is given that very context.
   */
  lemma GroundedCallIff(message: string, llm: LlmMode -> Option<string>, csv: CsvOutcome, rag: RagOutcome, c: string)
    ensures var r := SmartResponse(message, llm, csv, rag);
      LlmCall(GroundedMode(c)) in r.calls <==>
        RagCall in r.calls && HasUsableContext(rag) && c == rag.result.context.value
  {
    hide IsGreeting, IsWeakResponse, WithCitation;
    CallsShape(message, llm, csv, rag);
  }

  /**
   * A handbook answer is the grounded generation, which passed the gate; it carries the
   * citation exactly when the similarity is at least 0.30 and some page was returned.
   */
  lemma HandbookCitationRule(message: string, llm: LlmMode -> Option<string>, csv: CsvOutcome, rag: RagOutcome)
    ensures var r := SmartResponse(message, llm, csv, rag);
      r.source in {HandbookCited, HandbookUncited} ==>
        && HasUsableContext(rag)
        && !IsWeakResponse(llm(GroundedMode(rag.result.context.value)))
        && (r.source == HandbookCited <==> Cites(rag.result))
        && r.text == if r.source == HandbookCited
                     then WithCitation(llm(GroundedMode(rag.result.context.value)).value, rag.result.pages)
                     else llm(GroundedMode(rag.result.context.value)).value
  {
    hide IsGreeting, IsWeakResponse, WithCitation;
  }

  /** Every answer taken from the corpus or the generator, other than a greeting, passed the gate. */
  lemma AcceptedAnswersPassGate(message: string, llm: LlmMode -> Option<string>, csv: CsvOutcome, rag: RagOutcome)
    ensures var r := SmartResponse(message, llm, csv, rag);
      r.source in {CsvAnswer, HandbookUncited, OpenAnswer} ==> !IsWeakResponse(Some(r.text))
  {
    hide IsGreeting, WithCitation, Strip, Lower, ContainsAny;
  }

  /** The default answer is given exactly when every stage came up empty, the open prompt included. */
  lemma DefaultOnlyWhenAllFail(message: string, llm: LlmMode -> Option<string>, csv: CsvOutcome, rag: RagOutcome)
    ensures var r := SmartResponse(message, llm, csv, rag);
      r.source == DefaultAnswer <==>
        && PastGreeting(message, llm) && !CsvAccepted(csv)
        && (HasUsableContext(rag) ==> IsWeakResponse(llm(GroundedMode(rag.result.context.value))))
        && IsWeakResponse(llm(OpenMode))
    ensures var r := SmartResponse(message, llm, csv, rag);
      r.source == DefaultAnswer ==> r.text == DefaultReply && LlmCall(OpenMode) in r.calls
  {
    hide IsGreeting, WithCitation, Strip, Lower, ContainsAny;
  }

  /** The position of a call in the escalation order. */
  function Stage(call: Call): nat {
    match call
      case LlmCall(GreetingMode) => 0
      case CsvCall => 1
      case RagCall => 2
      case LlmCall(GroundedMode(_)) => 3
      case LlmCall(OpenMode) => 4
  }

  /** Calls in strictly increasing escalation order. */
  predicate InEscalationOrder(calls: seq<Call>) {
    forall i, j :: 0 <= i < j < |calls| ==> Stage(calls[i]) < Stage(calls[j])
  }

  /** Every call comes before stage `n`. */
  predicate AllBefore(calls: seq<Call>, n: nat) {
    forall i :: 0 <= i < |calls| ==> Stage(calls[i]) < n
  }

  lemma AppendLaterCall(calls: seq<Call>, present: bool, call: Call)
    requires InEscalationOrder(calls) && AllBefore(calls, Stage(call))
    ensures InEscalationOrder(calls + (if present then [call] else []))
    ensures AllBefore(calls + (if present then [call] else []), Stage(call) + 1)
  {
    if present {
      var s := calls + [call];
      forall i, j | 0 <= i < j < |s| ensures Stage(s[i]) < Stage(s[j]) {
        if j == |calls| {
          assert s[i] == calls[i];
        } else {
          assert s[i] == calls[i] && s[j] == calls[j];
        }
      }
    } else {
      assert calls + [] == calls;
    }
  }

  /** Any selection of the five stages, kept in escalation order, is in escalation order. */
  lemma SelectionInOrder(greet: bool, csv: bool, rag: bool, grounded: bool, open: bool, context: string)
    ensures InEscalationOrder(
      (if greet then [LlmCall(GreetingMode)] else [])
      + (if csv then [CsvCall] else [])
      + (if rag then [RagCall] else [])
      + (if grounded then [LlmCall(GroundedMode(context))] else [])
      + (if open then [LlmCall(OpenMode)] else []))
  {
    var s0: seq<Call> := [];
    AppendLaterCall(s0, greet, LlmCall(GreetingMode));
    assert s0 + (if greet then [LlmCall(GreetingMode)] else []) == (if greet then [LlmCall(GreetingMode)] else []);
    var s1 := if greet then [LlmCall(GreetingMode)] else [];
    AppendLaterCall(s1, csv, CsvCall);
    var s2 := s1 + (if csv then [CsvCall] else []);
    AppendLaterCall(s2, rag, RagCall);
    var s3 := s2 + (if rag then [RagCall] else []);
    AppendLaterCall(s3, grounded, LlmCall(GroundedMode(context)));
    var s4 := s3 + (if grounded then [LlmCall(GroundedMode(context))] else []);
    AppendLaterCall(s4, open, LlmCall(OpenMode));
  }

  /** The stages are tried in their fixed order, each at most once. */
  lemma CallsFollowEscalationOrder(message: string, llm: LlmMode -> Option<string>, csv: CsvOutcome, rag: RagOutcome)
    ensures InEscalationOrder(SmartResponse(message, llm, csv, rag).calls)
  {
    CallsShape(message, llm, csv, rag);
    var usable := ReachesRag(message, llm, csv) && HasUsableContext(rag);
    var context := if usable then rag.result.context.value else [];
    SelectionInOrder(IsGreeting(message), PastGreeting(message, llm), ReachesRag(message, llm, csv),
      usable, ReachesOpen(message, llm, csv, rag), context);
  }

  // ---------------------------------------------------------------------------
  // The stages' outputs as the resolver sees them
  // ---------------------------------------------------------------------------

  /**
   * The corpus lookup only reports answers above its own 0.5 floor, so the resolver's 0.30
   * test never rejects one: a reported pair is accepted exactly when its answer passes the gate.
   */
  lemma CsvThresholdRedundant(answer: Option<string>, confidence: real)
    requires answer.None? ==> confidence == 0.0
    requires answer.Some? ==> answer.value != [] && confidence > Chat.DefaultThreshold
    ensures CsvAccepted(CsvPair(answer, confidence)) <==> !IsWeakResponse(answer)
  {
  }

  /**
   * The retrieval already returns its pages distinct and ascending, so the citation lists
   * them exactly in the order returned.
   */
  lemma CitationKeepsRetrievedOrder(indexReady: bool, chunkCount: nat, search: SearchOutcome)
    requires Retrieve(indexReady, chunkCount, search).context.Some?
    ensures var pages := Retrieve(indexReady, chunkCount, search).pages;
      PagesText(pages) == Join(IntStrings(pages), ", ")
  {
    var pages := Retrieve(indexReady, chunkCount, search).pages;
    assert StrictlyAscending(pages);
    SortedSetOfAscending(pages);
  }

  // ---------------------------------------------------------------------------
  // Worked cases
  // ---------------------------------------------------------------------------

  /** A trimmed lower-case message of at most three words that contains a greeting phrase is a greeting. */
  lemma GreetingByWitness(msg: string, greeting: string, i: int)
    requires IsStripped(msg) && Lower(msg) == msg && |Words(msg)| <= 3
    requires greeting in Greetings && OccursAt(msg, greeting, i)
    ensures IsGreeting(msg)
  {
  }

  lemma ShortGreetingExample()
    ensures IsGreeting("hi")
  {
    var msg := "hi";
    assert Lower(msg) == msg;
    RunsWhole(msg, NotSpace);
    GreetingByWitness(msg, "hi", 0);
  }

  /** Two space-free words, neither starting nor ending in whitespace, make a two-word message. */
  lemma TwoWordMessage(first: string, second: string)
    requires first != [] && second != []
    requires forall i :: 0 <= i < |first| ==> NotSpace(first[i])
    requires forall i :: 0 <= i < |second| ==> NotSpace(second[i])
    ensures Words(first + [' '] + second) == [first, second]
    ensures IsStripped(first + [' '] + second)
  {
    RunsAfterRun(first, ' ', second, NotSpace);
    RunsWhole(second, NotSpace);
    var msg := first + [' '] + second;
    assert msg[0] == first[0] && msg[|msg| - 1] == second[|second| - 1];
  }

  /** A one-word greeting phrase followed by one more lower-case word is a greeting ("hey there"). */
  lemma GreetingThenWord(greeting: string, word: string)
    requires greeting in Greetings && greeting != [] && IsLowerCase(greeting)
    requires forall i :: 0 <= i < |greeting| ==> NotSpace(greeting[i])
    requires word != [] && IsLowerCase(word) && forall i :: 0 <= i < |word| ==> NotSpace(word[i])
    ensures IsGreeting(greeting + " " + word)
  {
    var msg := greeting + " " + word;
    TwoWordMessage(greeting, word);
    assert Lower(msg) == msg;
    assert OccursAt(msg, greeting, 0) by {
      assert msg[0..|greeting|] == greeting;
    }
    GreetingByWitness(msg, greeting, 0);
  }

  /**
   * Greeting phrases are matched as substrings, so two lower-case words whose first contains
   * "hi" make a greeting, whatever they mean ("which uniform?").
   */
  lemma HiInsideWordIsGreeting(first: string, second: string, i: int)
    requires OccursAt(first, "hi", i) && IsLowerCase(first)
    requires forall j :: 0 <= j < |first| ==> NotSpace(first[j])
    requires second != [] && IsLowerCase(second) && forall j :: 0 <= j < |second| ==> NotSpace(second[j])
    ensures IsGreeting(first + " " + second)
  {
    var msg := first + " " + second;
    TwoWordMessage(first, second);
    assert Lower(msg) == msg;
    assert OccursAt(msg, "hi", i) by {
      assert msg[i..i + 2] == first[i..i + 2];
    }
    GreetingByWitness(msg, "hi", i);
  }

  /** Every greeting phrase holds a g, an h or an s. */
  lemma GreetingLetters(g: string)
    requires g in Greetings
    ensures 'g' in g || 'h' in g || 's' in g
  {
    var k :| 0 <= k < |Greetings| && Greetings[k] == g;
    assert g[0] == 'h' || g[0] == 'g' || g[0] == 's' || g[1] == 'h';
  }

  /** Lower-casing and trimming a message without g, h and s leaves a text without them. */
  lemma CleanedLacksLetters(message: string)
    requires forall i :: 0 <= i < |message| ==> message[i] !in "ghsGHS"
    ensures forall c :: c in "ghs" ==> c !in Strip(Lower(message))
  {
    var lower := Lower(message);
    StripTakesFrom(lower);
    forall c | c in "ghs" ensures c !in lower {
      forall k | 0 <= k < |lower| ensures lower[k] != c {
        assert lower[k] == LowerChar(message[k]);
        assert message[k] !in "ghsGHS";
      }
    }
  }

  /**
   * Conversely, a message without the letters g, h and s, in either case, is never a greeting:
   * every greeting phrase holds one of them.
   */
  lemma GreetingNeedsLetter(message: string)
    requires forall i :: 0 <= i < |message| ==> message[i] !in "ghsGHS"
    ensures !IsGreeting(message)
  {
    var t := Strip(Lower(message));
    CleanedLacksLetters(message);
    forall g | g in Greetings ensures !Contains(t, g) {
      GreetingLetters(g);
      if 'g' in g {
        ContainsNeedsChar(t, g, 'g');
      } else if 'h' in g {
        ContainsNeedsChar(t, g, 'h');
      } else {
        ContainsNeedsChar(t, g, 's');
      }
    }
  }

  /** An answer mentioning a hedging phrase, in any letter case, is weak ("I don't know"). */
  lemma HedgingIsWeak(before: string, mention: string, after: string, phrase: string)
    requires phrase in WeakPhrases && Lower(mention) == phrase
    ensures IsWeakResponse(Some(before + mention + after))
  {
    LowerAppend(before, mention, after);
    ContainsInfix(Lower(before), phrase, Lower(after));
  }

  /** An answer without the letter n, trimmed to at least 10 code points, passes the gate: every hedging phrase has an n. */
  lemma AnswerWithoutNIsStrong(answer: string)
    requires |Strip(answer)| >= 10
    requires forall i :: 0 <= i < |answer| ==> answer[i] != 'n' && answer[i] != 'N'
    ensures !IsWeakResponse(Some(answer))
  {
    var lower := Lower(answer);
    forall phrase | phrase in WeakPhrases ensures !Contains(lower, phrase) {
      assert 'n' in phrase;
      ContainsNeedsChar(lower, phrase, 'n');
    }
  }

  /** "hey there" is a greeting. */
  lemma HeyThereIsGreeting()
    ensures IsGreeting("hey" + " " + "there")
  {
    GreetingThenWord("hey", "there");
  }

  /** "which uniform?" opens with a greeting, by the "hi" inside "which". */
  lemma WhichUniformIsGreeting()
    ensures IsGreeting("which" + " " + "uniform?")
  {
    assert "which"[1..3] == "hi";
    HiInsideWordIsGreeting("which", "uniform?", 1);
  }

  /** "I don't know" is a weak answer. */
  lemma IDontKnowIsWeak()
    ensures IsWeakResponse(Some("I don't know"))
  {
    assert Lower("I don't know") == "i don't know";
    HedgingIsWeak([], "I don't know", [], "i don't know");
    assert [] + "I don't know" + [] == "I don't know";
  }
}
