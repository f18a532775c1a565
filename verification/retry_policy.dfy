/**
 * The retry policy of `answerAll`, apart from what an attempt does: attempts
 * run one after another until one accepts, one throws, or none is left.
 */
module RetryPolicy {
  import opened Events

  /**
   * How one question ends: an option was verified and clicked, both attempts
   * were used up, or `similarity` was handed a `null` extracted answer and the
   * resulting TypeError left `answerAll`.
   */
  datatype Outcome = Resolved(index: nat) | Exhausted | Crashed

  /**
   * What one attempt decides: accept option `index`, reject (and move on to
   * the next attempt), or throw because `similarity` got a `null` answer.
   */
  datatype Verdict = Accept(index: nat) | Reject | Throw

  /** The verdict of an attempt, the number of requests it sends, and what it does. */
  datatype AttemptRun = AttemptRun(verdict: Verdict, used: nat, events: seq<Event>)

  /**
   * The sizes every attempt has: two or three requests (two when it throws,
   * three when it accepts), then one more event, the click, when it accepts.
   */
  predicate SizedRun(r: AttemptRun) {
    && 2 <= r.used <= 3
    && (r.verdict.Throw? ==> r.used == 2)
    && (r.verdict.Accept? ==> r.used == 3)
    && |r.events| == r.used + (if r.verdict.Accept? then 1 else 0)
  }

  /** The shape every attempt has: its sizes, and a click exactly when it accepts, as its last event. */
  predicate WellFormedRun(r: AttemptRun) {
    && SizedRun(r)
    && (r.verdict.Accept? ==> r.events[3].Clicked? && NoClick(r.events[..3]))
    && (!r.verdict.Accept? ==> NoClick(r.events))
  }

  /**
   * How a question ends, after how many completed attempts, the first request
   * number left unused, and what was sent and clicked.
   */
  datatype Resolution = Resolution(outcome: Outcome, attempts: nat, next: nat, log: seq<Event>)

  /**
   * The retry policy: up to `left` attempts, the first from request `n`. The
   * first accepted attempt resolves the question and a throw ends it; each
   * rejection passes on to the next attempt.
   */
  function Resolve(step: nat -> AttemptRun, n: nat, left: nat): (r: Resolution)
    ensures r.attempts <= left
    ensures r.outcome.Exhausted? ==> r.attempts == left
    decreases left
  {
    if left == 0 then Resolution(Exhausted, 0, n, [])
    else
      var a := step(n);
      match a.verdict
      case Throw => Resolution(Crashed, 0, n + 2, a.events)
      case Accept(i) => Resolution(Resolved(i), 1, n + 3, a.events)
      case Reject => Prepend(a.events, 1, Resolve(step, n + a.used, left - 1))
  }

  /**
   * With two attempts allowed: exhausted exactly when both are rejected,
   * crashed exactly when one throws before any acceptance, resolved exactly
   * when one accepts.
   */
  lemma ResolveTwice(step: nat -> AttemptRun, n: nat)
    ensures var first := step(n);
      var second := step(n + first.used);
      var r := Resolve(step, n, 2);
      && (r.outcome.Exhausted? <==> first.verdict.Reject? && second.verdict.Reject?)
      && (r.outcome.Crashed? <==> first.verdict.Throw? || (first.verdict.Reject? && second.verdict.Throw?))
      && (r.outcome.Resolved? <==> first.verdict.Accept? || (first.verdict.Reject? && second.verdict.Accept?))
  {
    var first := step(n);
    if first.verdict.Reject? {
      assert Resolve(step, n + first.used, 1).outcome == Resolve(step, n, 2).outcome;
    }
  }

  /** `r` preceded by `k` rejected attempts that did `events`. */
  function Prepend(events: seq<Event>, k: nat, r: Resolution): Resolution {
    Resolution(r.outcome, r.attempts + k, r.next, events + r.log)
  }

  /** Attempts that agree at every request number resolve alike. */
  lemma {:induction false} ResolveCongruent(step: nat -> AttemptRun, other: nat -> AttemptRun, n: nat, left: nat)
    requires forall m :: step(m) == other(m)
    ensures Resolve(step, n, left) == Resolve(other, n, left)
    decreases left
  {
    if left > 0 {
      ResolveCongruent(step, other, n + step(n).used, left - 1);
    }
  }

  /** Nothing prepended changes nothing. */
  lemma PrependNothing(r: Resolution)
    ensures Prepend([], 0, r) == r
  {
    assert [] + r.log == r.log;
  }

  /**
   * One turn of the retry loop: after `k` rejected attempts that did `done`,
   * attempt `a` at request `n` either is rejected too, and the rest of the
   * resolution follows from the next request on, or ends it.
   */
  lemma {:induction false} ResolveTurn(step: nat -> AttemptRun, n: nat, left: nat, done: seq<Event>, k: nat, a: AttemptRun)
    requires left > 0 && step(n) == a && WellFormedRun(a)
    ensures a.verdict.Reject? ==>
      Prepend(done, k, Resolve(step, n, left)) == Prepend(done + a.events, k + 1, Resolve(step, n + a.used, left - 1))
    ensures a.verdict.Accept? ==>
      Prepend(done, k, Resolve(step, n, left)) == Resolution(Resolved(a.verdict.index), k + 1, n + a.used, done + a.events)
    ensures a.verdict.Throw? ==>
      Prepend(done, k, Resolve(step, n, left)) == Resolution(Crashed, k, n + a.used, done + a.events)
  {
    if a.verdict.Reject? {
      var rest := Resolve(step, n + a.used, left - 1);
      assert done + (a.events + rest.log) == (done + a.events) + rest.log;
    }
  }

  /**
   * The retry policy's bookkeeping, for well-formed attempts: at most `left`
   * attempts, all of them on exhaustion; the log starts with the first
   * attempt's first event; two or three requests per attempt.
   */
  lemma {:induction false} ResolveCounts(step: nat -> AttemptRun, n: nat, left: nat)
    requires forall m {:trigger SizedRun(step(m))} :: SizedRun(step(m))
    ensures var r := Resolve(step, n, left);
      && r.attempts <= left
      && (left > 0 ==> SizedRun(step(n)) && |r.log| > 0 && r.log[0] == step(n).events[0])
      && r.next >= n && r.next - n == |r.log| - (if r.outcome.Resolved? then 1 else 0)
      && (r.outcome.Exhausted? ==> r.attempts == left && 2 * left <= r.next - n <= 3 * left)
    decreases left
  {
    if left > 0 {
      var a := step(n);
      assert SizedRun(a);
      if a.verdict.Reject? {
        ResolveCounts(step, n + a.used, left - 1);
      }
    }
  }

  /** A question's log holds a click exactly when the question is resolved. */
  lemma {:induction false} ResolveClicks(step: nat -> AttemptRun, n: nat, left: nat)
    requires forall m {:trigger WellFormedRun(step(m))} :: WellFormedRun(step(m))
    ensures var r := Resolve(step, n, left);
      r.outcome.Resolved? <==> !NoClick(r.log)
    decreases left
  {
    if left > 0 {
      var a := step(n);
      assert WellFormedRun(a);
      if a.verdict.Reject? {
        ResolveClicks(step, n + a.used, left - 1);
        ClicksAppend(a.events, Resolve(step, n + a.used, left - 1).log);
      } else if a.verdict.Accept? {
        assert a.events == a.events[..3] + [a.events[3]];
        ClicksAppend(a.events[..3], [a.events[3]]);
        assert [a.events[3]][..0] == [];
      }
    }
  }

  /**
   * A resolved question's log ends with the events of the accepting attempt,
   * which started three requests before the first unused one.
   */
  lemma {:induction false} ResolveAccepting(step: nat -> AttemptRun, n: nat, left: nat)
    requires forall m {:trigger SizedRun(step(m))} :: SizedRun(step(m))
    ensures var r := Resolve(step, n, left);
      r.outcome.Resolved? ==>
        && 1 <= r.attempts && r.next >= 3
        && step(r.next - 3).verdict == Accept(r.outcome.index) && |step(r.next - 3).events| == 4
        && EndsWith(r.log, step(r.next - 3).events)
    decreases left
  {
    if left > 0 {
      var a := step(n);
      assert SizedRun(a);
      if a.verdict.Reject? {
        var rest := Resolve(step, n + a.used, left - 1);
        ResolveAccepting(step, n + a.used, left - 1);
        if rest.outcome.Resolved? {
          EndsWithAfter(a.events, rest.log, step(rest.next - 3).events);
        }
      } else {
        assert a.events[|a.events| - |a.events|..] == a.events;
      }
    }
  }

  /** In a resolved question's log, the one click is the last event. */
  lemma {:induction false} ResolveClickLast(step: nat -> AttemptRun, n: nat, left: nat)
    requires forall m {:trigger WellFormedRun(step(m))} :: WellFormedRun(step(m))
    ensures var r := Resolve(step, n, left);
      r.outcome.Resolved? ==> |r.log| > 0 && r.log[|r.log| - 1].Clicked? && NoClick(r.log[..|r.log| - 1])
    decreases left
  {
    if left > 0 {
      var a := step(n);
      assert WellFormedRun(a);
      if a.verdict.Reject? {
        var rest := Resolve(step, n + a.used, left - 1);
        ResolveClickLast(step, n + a.used, left - 1);
        assert Resolve(step, n, left) == Prepend(a.events, 1, rest);
        if rest.outcome.Resolved? {
          var log := a.events + rest.log;
          assert log[..|log| - 1] == a.events + rest.log[..|rest.log| - 1];
          ClicksAppend(a.events, rest.log[..|rest.log| - 1]);
        }
      }
    }
  }

  /** A crashed question's log ends with the events of the attempt that threw, and fewer than `left` attempts completed. */
  lemma {:induction false} ResolveCrash(step: nat -> AttemptRun, n: nat, left: nat)
    requires forall m {:trigger SizedRun(step(m))} :: SizedRun(step(m))
    ensures var r := Resolve(step, n, left);
      r.outcome.Crashed? ==>
        && r.attempts < left && r.next >= n + 2
        && step(r.next - 2).verdict.Throw? && |step(r.next - 2).events| == 2
        && EndsWith(r.log, step(r.next - 2).events)
    decreases left
  {
    if left > 0 {
      var a := step(n);
      assert SizedRun(a);
      if a.verdict.Reject? {
        var rest := Resolve(step, n + a.used, left - 1);
        ResolveCrash(step, n + a.used, left - 1);
        if rest.outcome.Crashed? {
          EndsWithAfter(a.events, rest.log, step(rest.next - 2).events);
        }
      } else {
        assert a.events[|a.events| - |a.events|..] == a.events;
      }
    }
  }

}
