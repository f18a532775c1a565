/**
 * What a run of the script does to the outside world: the requests it sends
 * to the language model and the radio buttons it clicks, in order.
 */
module Events {
  import opened Wrappers

  /** The three requests the script sends, with the content that varies. */
  datatype Request =
    | AskAnswer(question: string, options: seq<string>)
    | ExtractAnswer(answerText: Option<string>)
    | VerifyAnswer(question: string, answer: string)

  /** What a run does to the outside world: send a request, or click the radio of an option element. */
  datatype Event = Sent(request: Request) | Clicked(element: nat)

  /** The number of clicks recorded in `log`. */
  function Clicks(log: seq<Event>): nat
    decreases |log|
  {
    if |log| == 0 then 0 else Clicks(log[..|log| - 1]) + (if log[|log| - 1].Clicked? then 1 else 0)
  }

  predicate NoClick(log: seq<Event>) {
    Clicks(log) == 0
  }

  /** Clicks add up over consecutive stretches of a log. */
  lemma {:induction false} ClicksAppend(log: seq<Event>, more: seq<Event>)
    ensures Clicks(log + more) == Clicks(log) + Clicks(more)
    decreases |more|
  {
    if |more| == 0 {
      assert log + more == log;
    } else {
      ClicksAppend(log, more[..|more| - 1]);
      assert (log + more)[..|log + more| - 1] == log + more[..|more| - 1];
    }
  }

  /** `NoClick` says that no event of the log is a click. */
  lemma {:induction false} NoClickIff(log: seq<Event>)
    ensures NoClick(log) <==> forall p :: 0 <= p < |log| ==> !log[p].Clicked?
    decreases |log|
  {
    if |log| > 0 {
      NoClickIff(log[..|log| - 1]);
    }
  }

  /** `log` ends with the events `last`. */
  predicate EndsWith(log: seq<Event>, last: seq<Event>) {
    |last| <= |log| && log[|log| - |last|..] == last
  }

  /** Events put in front of a log leave its end as it was. */
  lemma EndsWithAfter(done: seq<Event>, log: seq<Event>, last: seq<Event>)
    requires EndsWith(log, last)
    ensures EndsWith(done + log, last)
  {
    assert (done + log)[|done + log| - |last|..] == log[|log| - |last|..];
  }

  /** The `j`-th of the last events is where the end of the log says. */
  lemma EndsWithAt(log: seq<Event>, last: seq<Event>, j: nat)
    requires EndsWith(log, last) && j < |last|
    ensures log[|log| - |last| + j] == last[j]
  {
    assert log[|log| - |last|..][j] == last[j];
  }
}
