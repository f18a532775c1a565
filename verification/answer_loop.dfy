/**
 * `answerAll` of script.js with the browser and the network taken out.
 *
 * A form item is its heading (if any) and the trimmed texts of its option
 * elements. The language-model endpoint is an oracle: the n-th request sent
 * during a run receives `oracle(n)`, `None` standing for the `null` that
 * `send` returns on any failure. Every request sent and every radio button
 * clicked is recorded, in order, in a log of events.
 */
module AnswerLoop {
  import opened Wrappers
  import opened Scoring
  import opened Matcher
  import opened Events
  import opened RetryPolicy
  import opened RequestChain

  /** The number of attempts per question (`attempts < 2`). */
  const MaxAttempts: nat := 2

  /** The heading used when a form item has none. */
  const UnknownQuestion: string := "Unknown Question"

  /** A reply for every request number. */
  type Oracle = nat -> Option<string>

  datatype FormItem = FormItem(heading: Option<string>, optionTexts: seq<string>)

  /** Every click in `log` is its last event and hits a non-empty option element of `texts`. */
  predicate ClicksValid(texts: seq<string>, log: seq<Event>) {
    forall p :: 0 <= p < |log| && log[p].Clicked? ==>
      p == |log| - 1 && log[p].element < |texts| && texts[log[p].element] != ""
  }

  /** The options of a form item paired with the indices of their elements. */
  datatype Collected = Collected(options: seq<string>, radios: seq<nat>)

  /**
   * What the `forEach` collects from `texts`: the non-empty texts, in order,
   * each paired with the index of its element.
   */
  function Collect(texts: seq<string>): (c: Collected)
    ensures |c.options| == |c.radios|
    ensures forall k :: 0 <= k < |c.radios| ==>
      c.radios[k] < |texts| && texts[c.radios[k]] == c.options[k] && c.options[k] != ""
    decreases |texts|
  {
    if |texts| == 0 then Collected([], [])
    else
      var c := Collect(texts[..|texts| - 1]);
      var last := |texts| - 1;
      if texts[last] != "" then Collected(c.options + [texts[last]], c.radios + [last]) else c
  }

  /** The collected radios are in document order, and every non-empty option text is collected. */
  lemma {:induction false} CollectOrderedComplete(texts: seq<string>)
    ensures var c := Collect(texts);
      && (forall k, l :: 0 <= k < l < |c.radios| ==> c.radios[k] < c.radios[l])
      && (forall j :: 0 <= j < |texts| && texts[j] != "" ==> j in c.radios)
    decreases |texts|
  {
    if |texts| > 0 {
      var prefix := texts[..|texts| - 1];
      CollectOrderedComplete(prefix);
      forall j | 0 <= j < |texts| - 1 && texts[j] != ""
        ensures j in Collect(prefix).radios
      {
        assert prefix[j] == texts[j];
      }
    }
  }

  /** The `forEach` that fills `options` and `radioInputs` in lockstep. */
  method CollectOptions(texts: seq<string>) returns (options: seq<string>, radios: seq<nat>)
    ensures Collected(options, radios) == Collect(texts)
  {
    options, radios := [], [];
    for j := 0 to |texts|
      invariant Collected(options, radios) == Collect(texts[..j])
    {
      assert texts[..j + 1][..j] == texts[..j];
      var option := texts[j];
      if option != "" {
        options := options + [option];
        radios := radios + [j];
      }
    }
    assert texts[..|texts|] == texts;
  }

  /**
   * The facts behind a click that ends `log`: option `i` was the best match for
   * the extracted reply `oracle(next - 2)`, the verification request about it
   * got the reply `oracle(next - 1)`, that reply was judged a yes, and only
   * then was the radio of option `i` clicked.
   */
  predicate AcceptedAtEnd(question: string, options: seq<string>, radios: seq<nat>, oracle: Oracle,
                          next: nat, log: seq<Event>, i: nat)
  {
    && i < |options| && i < |radios| && next >= 3 && |log| >= 3
    && log[|log| - 1] == Clicked(radios[i])
    && NoClick(log[..|log| - 1])
    && log[|log| - 2] == Sent(VerifyAnswer(question, options[i]))
    && DecideYesNo(oracle(next - 1))
    && log[|log| - 3].Sent? && log[|log| - 3].request.ExtractAnswer?
    && oracle(next - 2).Some?
    && IsBestMatch(options, oracle(next - 2).value, i)
  }

  /**
   * One attempt whose answer request is number `n`: the extraction reply is
   * `oracle(n + 1)`; with options and an extracted answer, the first best
   * match is verified by request `n + 2`, and its radio is clicked on a yes.
   */
  function TryOnce(question: string, options: seq<string>, radios: seq<nat>, oracle: Oracle, n: nat): AttemptRun
    requires |radios| == |options|
  {
    var sent := [Sent(AskAnswer(question, options)), Sent(ExtractAnswer(oracle(n)))];
    var extracted := oracle(n + 1);
    if extracted.None? then
      if |options| > 0 then AttemptRun(Throw, 2, sent) else AttemptRun(Reject, 2, sent)
    else if |options| == 0 then
      AttemptRun(Reject, 2, sent)
    else
      var i := FirstBest(options, extracted.value, |options|);
      var verify := Sent(VerifyAnswer(question, options[i]));
      if DecideYesNo(oracle(n + 2)) then AttemptRun(Accept(i), 3, sent + [verify, Clicked(radios[i])])
      else AttemptRun(Reject, 3, sent + [verify])
  }

  /**
   * The shape of an attempt: a throw exactly on a `null` extraction with
   * options present; two requests, or three once there is a match to verify;
   * the answer request first, then the extraction request; and a click only
   * on acceptance, after the verification request.
   */
  lemma TryOnceShape(question: string, options: seq<string>, radios: seq<nat>, oracle: Oracle, n: nat)
    requires |radios| == |options|
    ensures var r := TryOnce(question, options, radios, oracle, n);
      && (r.verdict.Throw? <==> |options| > 0 && oracle(n + 1).None?)
      && (r.verdict.Accept? ==> |options| > 0 && oracle(n + 1).Some?)
      && r.used == (if |options| > 0 && oracle(n + 1).Some? then 3 else 2)
      && |r.events| == r.used + (if r.verdict.Accept? then 1 else 0)
      && r.events[0] == Sent(AskAnswer(question, options))
      && r.events[1] == Sent(ExtractAnswer(oracle(n)))
      && (r.verdict.Accept? ==> r.events[3].Clicked? && NoClick(r.events[..3]))
      && (!r.verdict.Accept? ==> NoClick(r.events))
  {
    var r := TryOnce(question, options, radios, oracle, n);
    NoClickIff(r.events);
    if r.verdict.Accept? {
      NoClickIff(r.events[..3]);
    }
  }

  /**
   * What an attempt decides: it accepts only the best match for the
   * extracted answer, and only when the verification reply reads as a yes;
   * it rejects a match whose verification does not; the click is on the
   * radio of the accepted option, right after the request verifying it.
   */
  lemma TryOnceFacts(question: string, options: seq<string>, radios: seq<nat>, oracle: Oracle, n: nat)
    requires |radios| == |options|
    ensures var r := TryOnce(question, options, radios, oracle, n);
      && (r.verdict.Accept? ==>
            && |options| > 0 && oracle(n + 1).Some?
            && IsBestMatch(options, oracle(n + 1).value, r.verdict.index)
            && DecideYesNo(oracle(n + 2))
            && |r.events| == 4
            && r.events[2] == Sent(VerifyAnswer(question, options[r.verdict.index]))
            && r.events[3] == Clicked(radios[r.verdict.index]))
      && (r.verdict.Reject? && |options| > 0 && oracle(n + 1).Some? ==> !DecideYesNo(oracle(n + 2)))
  {
  }

  /** The attempt that starts at each request number, for one question. */
  function Attempts(question: string, options: seq<string>, radios: seq<nat>, oracle: Oracle): nat -> AttemptRun
    requires |radios| == |options|
  {
    (n: nat) => TryOnce(question, options, radios, oracle, n)
  }

  /**
   * The two or three attempts of one question, as the script runs them from
   * request `start`: the retry policy folded over the script's attempts.
   * `step` is any function that agrees with `TryOnce` at every request
   * number; they all fold alike (`StepsFoldToQuestionRun`).
   */
  ghost function QuestionRun(question: string, options: seq<string>, radios: seq<nat>, oracle: Oracle, start: nat): Resolution
    requires |radios| == |options|
  {
    assert StepsAgree(Attempts(question, options, radios, oracle), question, options, radios, oracle);
    var step :| StepsAgree(step, question, options, radios, oracle);
    Resolve(step, start, MaxAttempts)
  }

  /**
   * `step` gives every attempt's run. The fact is only used where the attempt
   * itself is in view, so that the retry loop's proof does not look inside
   * every attempt the fold mentions.
   */
  ghost predicate StepsAgree(step: nat -> AttemptRun, question: string, options: seq<string>, radios: seq<nat>, oracle: Oracle)
    requires |radios| == |options|
  {
    forall n {:trigger TryOnce(question, options, radios, oracle, n)} :: step(n) == TryOnce(question, options, radios, oracle, n)
  }

  /** Where steps agree with the attempts, each one is the attempt at its request number. */
  lemma StepAt(step: nat -> AttemptRun, question: string, options: seq<string>, radios: seq<nat>, oracle: Oracle, n: nat)
    requires |radios| == |options| && StepsAgree(step, question, options, radios, oracle)
    ensures step(n) == TryOnce(question, options, radios, oracle, n)
  {
  }

  /** The script's own attempts are a step function that agrees with them. */
  lemma AgreeingStep(question: string, options: seq<string>, radios: seq<nat>, oracle: Oracle)
    returns (step: nat -> AttemptRun)
    requires |radios| == |options|
    ensures StepsAgree(step, question, options, radios, oracle)
  {
    step := Attempts(question, options, radios, oracle);
  }

  /** Two step functions that agree with the attempts agree with each other. */
  lemma StepsMatch(step: nat -> AttemptRun, other: nat -> AttemptRun, question: string, options: seq<string>,
                   radios: seq<nat>, oracle: Oracle)
    requires |radios| == |options|
    requires StepsAgree(step, question, options, radios, oracle) && StepsAgree(other, question, options, radios, oracle)
    ensures forall m :: step(m) == other(m)
  {
    forall m
      ensures step(m) == other(m)
    {
      StepAt(step, question, options, radios, oracle, m);
      StepAt(other, question, options, radios, oracle, m);
    }
  }

  /** Steps that agree with the attempts fold to the question run. */
  lemma StepsFoldToQuestionRun(step: nat -> AttemptRun, question: string, options: seq<string>, radios: seq<nat>,
                               oracle: Oracle, start: nat)
    requires |radios| == |options| && StepsAgree(step, question, options, radios, oracle)
    ensures QuestionRun(question, options, radios, oracle, start) == Resolve(step, start, MaxAttempts)
  {
    forall other | StepsAgree(other, question, options, radios, oracle)
      ensures Resolve(other, start, MaxAttempts) == Resolve(step, start, MaxAttempts)
    {
      StepsMatch(other, step, question, options, radios, oracle);
      ResolveCongruent(other, step, start, MaxAttempts);
    }
  }

  /** What `TryOnceFacts` says of an accepting attempt, for the attempt `step` gives at request `m`. */
  lemma StepAccepts(step: nat -> AttemptRun, question: string, options: seq<string>, radios: seq<nat>, oracle: Oracle,
                    m: nat)
    requires |radios| == |options| && StepsAgree(step, question, options, radios, oracle)
    ensures var a := step(m);
      a.verdict.Accept? ==>
        && a.verdict.index < |options| && oracle(m + 1).Some?
        && IsBestMatch(options, oracle(m + 1).value, a.verdict.index)
        && DecideYesNo(oracle(m + 2))
        && |a.events| == 4
        && a.events[1] == Sent(ExtractAnswer(oracle(m)))
        && a.events[2] == Sent(VerifyAnswer(question, options[a.verdict.index]))
        && a.events[3] == Clicked(radios[a.verdict.index])
  {
    StepAt(step, question, options, radios, oracle, m);
    TryOnceFacts(question, options, radios, oracle, m);
    TryOnceShape(question, options, radios, oracle, m);
  }

  /** What `TryOnceShape` says of a throwing attempt, for the attempt `step` gives at request `m`. */
  lemma StepThrows(step: nat -> AttemptRun, question: string, options: seq<string>, radios: seq<nat>, oracle: Oracle,
                   m: nat)
    requires |radios| == |options| && StepsAgree(step, question, options, radios, oracle)
    ensures var a := step(m);
      a.verdict.Throw? ==>
        |options| > 0 && oracle(m + 1).None? && |a.events| == 2 && a.events[1] == Sent(ExtractAnswer(oracle(m)))
  {
    StepAt(step, question, options, radios, oracle, m);
    TryOnceShape(question, options, radios, oracle, m);
  }

  /** Every attempt of the script has the shape the retry policy relies on. */
  lemma StepsWellFormed(step: nat -> AttemptRun, question: string, options: seq<string>, radios: seq<nat>, oracle: Oracle)
    requires |radios| == |options| && StepsAgree(step, question, options, radios, oracle)
    ensures forall m {:trigger WellFormedRun(step(m))} :: WellFormedRun(step(m))
  {
    forall m
      ensures WellFormedRun(step(m))
    {
      StepAt(step, question, options, radios, oracle, m);
      TryOnceShape(question, options, radios, oracle, m);
    }
  }

  /** Every attempt of the script has the sizes the retry policy relies on. */
  lemma StepsSized(step: nat -> AttemptRun, question: string, options: seq<string>, radios: seq<nat>, oracle: Oracle)
    requires |radios| == |options| && StepsAgree(step, question, options, radios, oracle)
    ensures forall m {:trigger SizedRun(step(m))} :: SizedRun(step(m))
  {
    StepsWellFormed(step, question, options, radios, oracle);
    forall m
      ensures SizedRun(step(m))
    {
      assert WellFormedRun(step(m));
    }
  }

  /**
   * What one question amounts to: the first request asks for an answer; a
   * click exactly on resolution, as the last event, on the best match for
   * the extracted reply, verified with a yes; exhaustion only after both
   * attempts; a crash only on a `null` extraction with options present.
   */
  lemma QuestionRunFacts(question: string, options: seq<string>, radios: seq<nat>, oracle: Oracle, start: nat)
    requires |radios| == |options|
    ensures var r := QuestionRun(question, options, radios, oracle, start);
      && r.attempts <= MaxAttempts
      && |r.log| > 0 && r.log[0] == Sent(AskAnswer(question, options))
      && r.next - start == |r.log| - (if r.outcome.Resolved? then 1 else 0)
      && (r.outcome.Resolved? <==> !NoClick(r.log))
      && (r.outcome.Resolved? ==>
            1 <= r.attempts && AcceptedAtEnd(question, options, radios, oracle, r.next, r.log, r.outcome.index))
      && (r.outcome.Exhausted? ==> r.attempts == MaxAttempts && 2 * MaxAttempts <= r.next - start <= 3 * MaxAttempts)
      && (r.outcome.Crashed? ==>
            && r.attempts < MaxAttempts && |options| > 0 && r.next - start >= 2
            && oracle(r.next - 1).None?
            && r.log[|r.log| - 1] == Sent(ExtractAnswer(oracle(r.next - 2))))
  {
    var step := AgreeingStep(question, options, radios, oracle);
    StepsFoldToQuestionRun(step, question, options, radios, oracle, start);
    RunShape(step, question, options, radios, oracle, start);
    RunAccepted(step, question, options, radios, oracle, start);
    RunCrashed(step, question, options, radios, oracle, start);
  }

  /** The bookkeeping part of `QuestionRunFacts`. */
  lemma RunShape(step: nat -> AttemptRun, question: string, options: seq<string>, radios: seq<nat>, oracle: Oracle,
                 start: nat)
    requires |radios| == |options| && StepsAgree(step, question, options, radios, oracle)
    ensures var r := Resolve(step, start, MaxAttempts);
      && r.attempts <= MaxAttempts
      && |r.log| > 0 && r.log[0] == Sent(AskAnswer(question, options))
      && r.next - start == |r.log| - (if r.outcome.Resolved? then 1 else 0)
      && (r.outcome.Resolved? <==> !NoClick(r.log))
      && (r.outcome.Exhausted? ==> r.attempts == MaxAttempts && 2 * MaxAttempts <= r.next - start <= 3 * MaxAttempts)
  {
    StepsWellFormed(step, question, options, radios, oracle);
    StepsSized(step, question, options, radios, oracle);
    ResolveCounts(step, start, MaxAttempts);
    ResolveClicks(step, start, MaxAttempts);
    TryOnceShape(question, options, radios, oracle, start);
    StepAt(step, question, options, radios, oracle, start);
  }

  /** The click part of `QuestionRunFacts`. */
  lemma RunAccepted(step: nat -> AttemptRun, question: string, options: seq<string>, radios: seq<nat>, oracle: Oracle,
                    start: nat)
    requires |radios| == |options| && StepsAgree(step, question, options, radios, oracle)
    ensures var r := Resolve(step, start, MaxAttempts);
      r.outcome.Resolved? ==>
        1 <= r.attempts && AcceptedAtEnd(question, options, radios, oracle, r.next, r.log, r.outcome.index)
  {
    StepsWellFormed(step, question, options, radios, oracle);
    ResolveClickLast(step, start, MaxAttempts);
    RunVerified(step, question, options, radios, oracle, start);
    RunLastEvents(step, question, options, radios, oracle, start);
  }

  /** A resolved question's option is the best match for the extracted reply, verified with a yes. */
  lemma RunVerified(step: nat -> AttemptRun, question: string, options: seq<string>, radios: seq<nat>, oracle: Oracle,
                    start: nat)
    requires |radios| == |options| && StepsAgree(step, question, options, radios, oracle)
    ensures var r := Resolve(step, start, MaxAttempts);
      r.outcome.Resolved? ==>
        && 1 <= r.attempts && r.next >= 3 && r.outcome.index < |options|
        && oracle(r.next - 2).Some?
        && IsBestMatch(options, oracle(r.next - 2).value, r.outcome.index)
        && DecideYesNo(oracle(r.next - 1))
  {
    var r := Resolve(step, start, MaxAttempts);
    StepsSized(step, question, options, radios, oracle);
    ResolveAccepting(step, start, MaxAttempts);
    if r.outcome.Resolved? {
      var m := r.next - 3;
      StepAccepts(step, question, options, radios, oracle, m);
      assert m + 1 == r.next - 2 && m + 2 == r.next - 1;
    }
  }

  /** A resolved question's log ends with the extraction, the verification of the option, and the click on its radio. */
  lemma RunLastEvents(step: nat -> AttemptRun, question: string, options: seq<string>, radios: seq<nat>, oracle: Oracle,
                      start: nat)
    requires |radios| == |options| && StepsAgree(step, question, options, radios, oracle)
    ensures var r := Resolve(step, start, MaxAttempts);
      r.outcome.Resolved? ==>
        && |r.log| >= 4 && r.outcome.index < |options|
        && r.log[|r.log| - 1] == Clicked(radios[r.outcome.index])
        && r.log[|r.log| - 2] == Sent(VerifyAnswer(question, options[r.outcome.index]))
        && r.log[|r.log| - 3].Sent? && r.log[|r.log| - 3].request.ExtractAnswer?
  {
    var r := Resolve(step, start, MaxAttempts);
    StepsSized(step, question, options, radios, oracle);
    ResolveAccepting(step, start, MaxAttempts);
    if r.outcome.Resolved? {
      var m := r.next - 3;
      StepAccepts(step, question, options, radios, oracle, m);
      var e := step(m).events;
      EndsWithAt(r.log, e, 1);
      EndsWithAt(r.log, e, 2);
      EndsWithAt(r.log, e, 3);
    }
  }

  /** The crash part of `QuestionRunFacts`. */
  lemma RunCrashed(step: nat -> AttemptRun, question: string, options: seq<string>, radios: seq<nat>, oracle: Oracle,
                   start: nat)
    requires |radios| == |options| && StepsAgree(step, question, options, radios, oracle)
    ensures var r := Resolve(step, start, MaxAttempts);
      r.outcome.Crashed? ==>
        && r.attempts < MaxAttempts && |options| > 0 && r.next - start >= 2 && |r.log| >= 2
        && oracle(r.next - 1).None?
        && r.log[|r.log| - 1] == Sent(ExtractAnswer(oracle(r.next - 2)))
  {
    var r := Resolve(step, start, MaxAttempts);
    StepsSized(step, question, options, radios, oracle);
    ResolveCrash(step, start, MaxAttempts);
    if r.outcome.Crashed? {
      var m := r.next - 2;
      StepThrows(step, question, options, radios, oracle, m);
      EndsWithAt(r.log, step(m).events, 1);
      assert m + 1 == r.next - 1;
    }
  }

  /**
   * The body of the retry loop: one attempt whose answer request is number
   * `n`. It sends the answer and extraction requests, matches the extracted
   * answer, verifies the match, and clicks its radio on a yes.
   */
  method Attempt(question: string, options: seq<string>, radios: seq<nat>, oracle: Oracle, n: nat)
    returns (run: AttemptRun)
    requires |radios| == |options|
    ensures run == TryOnce(question, options, radios, oracle, n)
  {
    var answerText := oracle(n);
    var extractedAnswer := oracle(n + 1);
    var events := [Sent(AskAnswer(question, options)), Sent(ExtractAnswer(answerText))];

    var bestMatchIndex: Option<nat>;
    if extractedAnswer.None? {
      if |options| > 0 {
        // `similarity(option, null)` throws on the first option.
        return AttemptRun(Throw, 2, events);
      }
      bestMatchIndex := None;
    } else {
      bestMatchIndex := FindBestMatch(options, extractedAnswer.value);
    }

    if bestMatchIndex.Some? {
      var i := bestMatchIndex.value;
      var selectedOption := options[i];
      var verified := oracle(n + 2);
      events := events + [Sent(VerifyAnswer(question, selectedOption))];
      var isCorrect := DecideYesNo(verified);
      if isCorrect {
        events := events + [Clicked(radios[i])];
        run := AttemptRun(Accept(i), 3, events);
      } else {
        run := AttemptRun(Reject, 3, events);
      }
    } else {
      run := AttemptRun(Reject, 2, events);
    }
  }

  /**
   * The retry `while` loop for one question: ask, extract, match, verify, and
   * click only a verified match; at most `MaxAttempts` attempts, and none after
   * the click. Requests are numbered from `start`; `next` is the first number
   * left unused.
   */
  method AnswerQuestion(question: string, options: seq<string>, radios: seq<nat>, oracle: Oracle, start: nat)
    returns (outcome: Outcome, attempts: nat, next: nat, log: seq<Event>)
    requires |radios| == |options|
    ensures Resolution(outcome, attempts, next, log) == QuestionRun(question, options, radios, oracle, start)
  {
    ghost var step := AgreeingStep(question, options, radios, oracle);
    var correctAnswerFound := false;
    attempts, next, log := 0, start, [];
    outcome := Exhausted;
    PrependNothing(Resolve(step, start, MaxAttempts));
    while attempts < MaxAttempts && !correctAnswerFound
      invariant attempts <= MaxAttempts
      invariant correctAnswerFound <==> outcome.Resolved?
      invariant correctAnswerFound ==> Resolve(step, start, MaxAttempts) == Resolution(outcome, attempts, next, log)
      invariant !correctAnswerFound ==>
        && outcome == Exhausted
        && Resolve(step, start, MaxAttempts) == Prepend(log, attempts, Resolve(step, next, MaxAttempts - attempts))
      decreases MaxAttempts - attempts
    {
      var run := Attempt(question, options, radios, oracle, next);
      TryOnceShape(question, options, radios, oracle, next);
      StepAt(step, question, options, radios, oracle, next);
      ResolveTurn(step, next, MaxAttempts - attempts, log, attempts, run);
      log, next := log + run.events, next + run.used;
      if run.verdict.Throw? {
        outcome := Crashed;
        StepsFoldToQuestionRun(step, question, options, radios, oracle, start);
        return;
      }
      if run.verdict.Accept? {
        correctAnswerFound := true;
        outcome := Resolved(run.verdict.index);
      }
      attempts := attempts + 1;
    }
    assert Resolve(step, next, 0) == Resolution(Exhausted, 0, next, []);
    assert log + [] == log;
    StepsFoldToQuestionRun(step, question, options, radios, oracle, start);
  }

  /** The heading of a form item, or the placeholder when it has none. */
  function QuestionOf(item: FormItem): string {
    item.heading.GetOr(UnknownQuestion)
  }

  /** How one form item is answered when its first request has number `start`. */
  ghost function ItemRunner(oracle: Oracle): (FormItem, nat) -> Resolution {
    (item: FormItem, start: nat) =>
      var c := Collect(item.optionTexts);
      QuestionRun(QuestionOf(item), c.options, c.radios, oracle, start)
  }

  /** The item runner on `item`, with the options and radios the collection loop gathered from it. */
  lemma ItemRunnerIs(oracle: Oracle, item: FormItem, options: seq<string>, radios: seq<nat>, start: nat)
    requires Collected(options, radios) == Collect(item.optionTexts)
    ensures ItemRunner(oracle)(item, start) == QuestionRun(QuestionOf(item), options, radios, oracle, start)
  {
  }

  /**
   * One turn of the loop over the form items: collect the item's options and
   * answer its question, from request number `start`.
   */
  method AnswerItem(item: FormItem, oracle: Oracle, start: nat)
    returns (outcome: Outcome, attempts: nat, next: nat, log: seq<Event>)
    ensures Resolution(outcome, attempts, next, log) == ItemRunner(oracle)(item, start)
  {
    var question := item.heading.GetOr(UnknownQuestion);
    var options, radios := CollectOptions(item.optionTexts);
    outcome, attempts, next, log := AnswerQuestion(question, options, radios, oracle, start);
    ItemRunnerIs(oracle, item, options, radios, start);
  }

  /**
   * The `for` loop over the form items: each is answered in turn with the
   * request numbering carried over, and the run stops at the first crash.
   */
  method AnswerAll(items: seq<FormItem>, oracle: Oracle) returns (outcomes: seq<Outcome>, logs: seq<seq<Event>>)
    ensures |outcomes| == |logs| <= |items|
    ensures forall k :: 0 <= k < |outcomes| - 1 ==> !outcomes[k].Crashed?
    ensures |outcomes| < |items| ==> |outcomes| > 0 && outcomes[|outcomes| - 1].Crashed?
    ensures var runs := Chain(items, ItemRunner(oracle), |outcomes|);
      forall k :: 0 <= k < |outcomes| ==> outcomes[k] == runs[k].outcome && logs[k] == runs[k].log
  {
    outcomes, logs := [], [];
    var calls: nat := 0;
    var k := 0;
    var crashed := false;
    ghost var runs: seq<Resolution> := [];
    while k < |items| && !crashed
      invariant k <= |items| && |outcomes| == |logs| == k
      invariant runs == Chain(items, ItemRunner(oracle), k)
      invariant calls == StartAfter(runs)
      invariant crashed ==> 0 < k
      invariant forall m :: 0 <= m < k ==> (outcomes[m].Crashed? <==> crashed && m == k - 1)
      invariant forall m :: 0 <= m < k ==> outcomes[m] == runs[m].outcome && logs[m] == runs[m].log
    {
      var outcome, attempts, next, log := AnswerItem(items[k], oracle, calls);
      ChainGrows(items, ItemRunner(oracle), k, Resolution(outcome, attempts, next, log));
      runs := runs + [Resolution(outcome, attempts, next, log)];
      outcomes, logs := outcomes + [outcome], logs + [log];
      calls := next;
      crashed := outcome.Crashed?;
      k := k + 1;
    }
  }

  /**
   * Item `k` of a run over `items` is the question run of its heading and
   * collected options, starting at request 0 for the first item and at the
   * first number its predecessor left unused otherwise; it sends its question
   * first and clicks at most once, validly.
   */
  lemma ItemRunFacts(items: seq<FormItem>, oracle: Oracle, n: nat, k: nat)
    requires k < n <= |items|
    ensures var runs := Chain(items, ItemRunner(oracle), n);
      var r := runs[k];
      var c := Collect(items[k].optionTexts);
      && r == QuestionRun(QuestionOf(items[k]), c.options, c.radios, oracle, if k == 0 then 0 else runs[k - 1].next)
      && |r.log| > 0 && r.log[0] == Sent(AskAnswer(QuestionOf(items[k]), c.options))
      && ClicksValid(items[k].optionTexts, r.log)
      && (r.outcome.Resolved? <==> !NoClick(r.log))
      && (r.outcome.Resolved? ==>
            AcceptedAtEnd(QuestionOf(items[k]), c.options, c.radios, oracle, r.next, r.log, r.outcome.index))
  {
    var runs := Chain(items, ItemRunner(oracle), n);
    var c := Collect(items[k].optionTexts);
    var start := if k == 0 then 0 else runs[k - 1].next;
    ChainAt(items, ItemRunner(oracle), n, k);
    ItemRunnerIs(oracle, items[k], c.options, c.radios, start);
    var r := runs[k];
    QuestionRunFacts(QuestionOf(items[k]), c.options, c.radios, oracle, start);
    ClickedOptionIsValid(items[k].optionTexts, QuestionOf(items[k]), c.options, c.radios, oracle, r.outcome, r.next, r.log);
  }

  /** A click left by `AnswerQuestion` always hits one of the elements the options came from. */
  lemma ClickedOptionIsValid(texts: seq<string>, question: string, options: seq<string>, radios: seq<nat>,
                             oracle: Oracle, outcome: Outcome, next: nat, log: seq<Event>)
    requires |options| == |radios|
    requires forall k :: 0 <= k < |radios| ==> radios[k] < |texts| && texts[radios[k]] == options[k] && options[k] != ""
    requires outcome.Resolved? <==> !NoClick(log)
    requires outcome.Resolved? ==> AcceptedAtEnd(question, options, radios, oracle, next, log, outcome.index)
    ensures ClicksValid(texts, log)
  {
    NoClickIff(log);
    if outcome.Resolved? {
      NoClickIff(log[..|log| - 1]);
      forall p | 0 <= p < |log| - 1
        ensures !log[p].Clicked?
      {
        assert log[p] == log[..|log| - 1][p];
      }
    }
  }

  /**
   * The converse of a click: when the extracted answer's best match is
   * verified with a yes, the question is resolved at the first attempt with
   * that match.
   */
  lemma ResolveAcceptsVerifiedMatch(question: string, options: seq<string>, radios: seq<nat>, oracle: Oracle,
                                    start: nat, answer: string)
    requires |radios| == |options| && |options| > 0
    requires oracle(start + 1) == Some(answer) && DecideYesNo(oracle(start + 2))
    ensures var r := QuestionRun(question, options, radios, oracle, start);
      && r.outcome.Resolved? && r.attempts == 1 && r.next == start + 3
      && IsBestMatch(options, answer, r.outcome.index)
      && r.outcome.index < |radios| && |r.log| == 4 && r.log[3] == Clicked(radios[r.outcome.index])
  {
    var step := AgreeingStep(question, options, radios, oracle);
    StepsFoldToQuestionRun(step, question, options, radios, oracle, start);
    StepAccepts(step, question, options, radios, oracle, start);
    StepAt(step, question, options, radios, oracle, start);
    TryOnceFacts(question, options, radios, oracle, start);
  }

  /**
   * A `null` extraction at the first attempt of a question with options
   * crashes the run right there: two requests, no click.
   */
  lemma NullExtractionCrashes(question: string, options: seq<string>, radios: seq<nat>, oracle: Oracle, start: nat)
    requires |radios| == |options| && |options| > 0 && oracle(start + 1).None?
    ensures var r := QuestionRun(question, options, radios, oracle, start);
      && r.outcome == Crashed && r.attempts == 0 && r.next == start + 2
      && r.log == [Sent(AskAnswer(question, options)), Sent(ExtractAnswer(oracle(start)))]
  {
    var step := AgreeingStep(question, options, radios, oracle);
    StepsFoldToQuestionRun(step, question, options, radios, oracle, start);
    StepAt(step, question, options, radios, oracle, start);
  }

  /**
   * The two attempts of a question: it ends `Exhausted` exactly when both
   * are rejected, `Crashed` exactly when one of them throws before any
   * acceptance, and `Resolved` exactly when one of them accepts.
   */
  lemma TwoAttempts(question: string, options: seq<string>, radios: seq<nat>, oracle: Oracle, start: nat)
    requires |radios| == |options|
    ensures var first := TryOnce(question, options, radios, oracle, start);
      var second := TryOnce(question, options, radios, oracle, start + first.used);
      var r := QuestionRun(question, options, radios, oracle, start);
      && (r.outcome.Exhausted? <==> first.verdict.Reject? && second.verdict.Reject?)
      && (r.outcome.Crashed? <==> first.verdict.Throw? || (first.verdict.Reject? && second.verdict.Throw?))
      && (r.outcome.Resolved? <==> first.verdict.Accept? || (first.verdict.Reject? && second.verdict.Accept?))
  {
    var step := AgreeingStep(question, options, radios, oracle);
    StepsFoldToQuestionRun(step, question, options, radios, oracle, start);
    ResolveTwice(step, start);
    StepAt(step, question, options, radios, oracle, start);
    StepAt(step, question, options, radios, oracle, start + step(start).used);
  }

  /** A model that always answers "yes" gets the first best match for "yes" clicked at the first attempt. */
  lemma AlwaysAccepted(question: string, options: seq<string>, radios: seq<nat>, oracle: Oracle, start: nat)
    requires |radios| == |options| && |options| > 0
    requires forall n :: oracle(n) == Some("yes")
    ensures var r := QuestionRun(question, options, radios, oracle, start);
      && r.outcome == Resolved(FirstBest(options, "yes", |options|)) && r.attempts == 1
      && r.outcome.index < |radios| && |r.log| > 0 && r.log[|r.log| - 1] == Clicked(radios[r.outcome.index])
  {
    assert ToLower("yes") == "yes";
    DecideYesNoOnLiterals("yes");
    assert oracle(start + 1) == Some("yes") && DecideYesNo(oracle(start + 2));
    ResolveAcceptsVerifiedMatch(question, options, radios, oracle, start, "yes");
    QuestionRunFacts(question, options, radios, oracle, start);
    var r := QuestionRun(question, options, radios, oracle, start);
    BestMatchUnique(options, "yes", r.outcome.index, FirstBest(options, "yes", |options|));
  }

  /** With a verifier that always answers "no", both attempts run and nothing is clicked. */
  lemma AlwaysRejected(question: string, options: seq<string>, radios: seq<nat>, oracle: Oracle, start: nat)
    requires |radios| == |options|
    requires forall n :: oracle(n) == Some("no")
    ensures var r := QuestionRun(question, options, radios, oracle, start);
      r.outcome == Exhausted && r.attempts == MaxAttempts && NoClick(r.log)
  {
    assert ToLower("no") == "no";
    DecideYesNoOnLiterals("no");
    TwoAttempts(question, options, radios, oracle, start);
    QuestionRunFacts(question, options, radios, oracle, start);
    var first := TryOnce(question, options, radios, oracle, start);
    TryOnceFacts(question, options, radios, oracle, start);
    TryOnceFacts(question, options, radios, oracle, start + first.used);
  }

  /** A question without options never crashes and never clicks, whatever the oracle says. */
  lemma NoOptionsExhausted(question: string, oracle: Oracle, start: nat)
    ensures var r := QuestionRun(question, [], [], oracle, start);
      r.outcome == Exhausted && r.attempts == MaxAttempts && NoClick(r.log)
  {
    TwoAttempts(question, [], [], oracle, start);
    QuestionRunFacts(question, [], [], oracle, start);
    var first := TryOnce(question, [], [], oracle, start);
    TryOnceShape(question, [], [], oracle, start);
    TryOnceShape(question, [], [], oracle, start + first.used);
  }
}
