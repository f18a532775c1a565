# Quiz answer matcher, modelled in Dafny

This project models the core of a browser script that fills in multiple-choice
quiz forms. The script asks a language model for an answer, asks it again to
distil a short answer, and maps that text onto one of the displayed options by
Levenshtein-based similarity. It then asks the model to confirm the chosen
option with a yes/no reply, which is also scored by similarity, and clicks the
option's radio button only when the reply reads as "yes". Each question gets at
most two attempts.

Modules, leaves first:

- `Wrappers` (`wrappers.dfy`): `Option`, standing for the script's `null`.
- `EditDistance` (`edit_distance.dfy`): `Dist` is the recurrence the script's
  memo table follows, over prefixes. Edit scripts (`Edit`, `Transforms`,
  `Cost`) say independently what an edit distance is.
  `OptimalScript` and `DistLowerBound` prove that `Dist` is the least cost of
  any script. `TableEntry` is the same recurrence indexed by prefix lengths,
  which is what the cells of the memo table hold. `LevenshteinDistance` and its
  inner loop `FillRow` fill an `array2` as the script does and return `Dist`.
- `Scoring` (`scoring.dfy`): ASCII lower-casing and the exact rational
  similarity score. Its lemmas cover bounds, the exact-1 case, symmetry and case
  insensitivity. `ComputeSimilarity` is the script's procedure, which uses the
  table method.
- `Matcher` (`matcher.dfy`): `FindBestMatch` is the strict-`>` arg-max scan,
  specified by `IsBestMatch` and by the recursive `FirstBest`. `DecideYesNo`
  is the yes/no verdict that ends `verifyAnswer`.
- `Events` (`events.dfy`): what a run does to the outside world. A `Sent`
  event records a request to the language model and a `Clicked` event a click
  on a radio button. `Clicks` counts the clicks in a log.
- `RetryPolicy` (`retry_policy.dfy`): the retry policy of the `while` loop,
  apart from what an attempt does. `Resolve` runs attempts until one accepts,
  one throws, or none is left, and its lemmas say how each outcome shows in
  the log.
- `RequestChain` (`request_chain.dfy`): the `for` loop's chaining of items.
  `Chain` runs item after item, each starting at the first request number its
  predecessor left unused.
- `AnswerLoop` (`answer_loop.dfy`): models `answerAll` with the oracle
  abstracted:
  - collecting the non-empty options together with their radio elements;
  - one attempt (`Attempt`, specified by `TryOnce`);
  - the per-question retry loop (`AnswerQuestion`, specified by `QuestionRun`);
  - the outer loop over form items (`AnswerAll`, specified by `Chain`).

  The model endpoint is an `Oracle`: a reply, or `None`, for each request
  number.

Two behaviours of the code are modelled as written:

- A failed `getAnswer` (a `null` reply) is not retried. Its `null` is passed on
  to `extractAnswer`.
- A `null` extracted answer makes `findBestMatch` return `null` when there are
  no options. When there are options, `similarity(option, null)` throws a
  TypeError, and that error leaves `answerAll` and stops the whole run.

  The model shows this as the `Crashed` outcome, after which `AnswerAll`
  processes no further item.

## Model

| member | source | states |
|---|---|---|
| `EditDistance.LevenshteinDistance` | script.js:97-131 | The nested loops over the `(|a|+1)×(|b|+1)` table return `Dist(a, b)`. The proof keeps every filled cell `memo[p, q]` equal to the distance of `a[..p]` and `b[..q]`. An empty `a` gives `|b|` and an empty `b` gives `|a|`. |
| `EditDistance.TableEntryIsDist` | script.js:116-128 | Cell `(i, j)` of the table recurrence, computed from the neighbouring cells, equals the distance of the prefixes `a[..i]` and `b[..j]`. |
| `EditDistance.FillRow` | script.js:117-127 | The inner loop fills row `i` with the recurrence's values, given the rows above it. It leaves the first column of the rows below unchanged. |
| `EditDistance.OptimalScript` | script.js:115-128 | Some edit script of insertions, deletions and substitutions turns `a` into `b` at a cost of exactly `Dist(a, b)`. |
| `EditDistance.DistLowerBound` | script.js:115-128 | Every edit script that turns `a` into `b` costs at least `Dist(a, b)`. Together with `OptimalScript`, the recurrence is the unit-cost edit distance. |
| `EditDistance.DistAtMostLonger` | script.js:103-130 | The distance is at most `max(|a|, |b|)`. |
| `EditDistance.DistAtLeastLengthGap` | script.js:103-130 | The distance is at least `||a| - |b||`. |
| `EditDistance.DistZeroIff` | script.js:103-130 | The distance is 0 exactly when `a == b`. |
| `EditDistance.DistSymmetric` | script.js:103-130 | The distance of `a` to `b` equals that of `b` to `a`. |
| `Scoring.SimilarityBounds` | script.js:84-94 | The score lies in [0, 1]. The subtraction never goes negative, because the distance is at most `maxLength`. |
| `Scoring.SimilarityOneIff` | script.js:85-93 | The score is exactly 1 when, and only when, the lower-cased strings are equal. Otherwise it is strictly below 1. |
| `Scoring.SimilaritySymmetric` | script.js:84-94 | `similarity(a, b) == similarity(b, a)`. |
| `Scoring.SimilarityIgnoresCase` | script.js:85-86 | Lower-casing either argument beforehand does not change the score. |
| `Scoring.ComputeSimilarity` | script.js:84-94 | The procedure returns the score, a value in [0, 1]. It reaches the division only when the lower-cased strings differ, so `maxLength > 0` there. |
| `Matcher.FirstBest` | script.js:72-78 | The index a strict-`>` scan over the first `n` options keeps: its score is at least every scanned option's score and strictly above every earlier option's. |
| `Matcher.FindBestMatch` | script.js:68-81 | Returns `null` exactly for an empty option list. Otherwise it returns an index whose score is at least every option's score and strictly above every earlier option's score, namely `FirstBest` over all options. |
| `Matcher.BestMatchUnique` | script.js:72-77 | At most one index fits that description, so the tie-break to the lowest index determines the result. |
| `Matcher.FirstExactMatchWins` | script.js:72-77 | The first option equal to the answer up to case is the one returned, even if later options also match. |
| `Matcher.DecideYesNo` | script.js:152-166 | The yes/no decision at the end of `verifyAnswer`, used directly by `Attempt`. A missing reply is never accepted (its ensures). Otherwise the reply is rejected exactly when its score against "no" is strictly higher than against "yes"; that is its definition, and its lemmas follow. |
| `Matcher.DecideYesNoOnLiterals` | script.js:152-166 | A missing reply gives `false`. A reply reading "yes" in any case gives `true`, and one reading "no" gives `false`. Equal scores against "no" and "yes" give `true`, because only a strictly higher "no" score rejects. |
| `Matcher.DecideYesNoIgnoresCase` | script.js:159-160 | The verdict depends on the reply only up to case. |
| `Events.ClicksAppend` | script.js:208 | The clicks of two consecutive stretches of a log add up. |
| `Events.NoClickIff` | script.js:208 | A log has no click exactly when none of its events is a click. |
| `RetryPolicy.Resolve` | script.js:198-214 | The control of the `while` loop: attempts run from request `n` until one accepts (the click sets `correctAnswerFound`), one throws, or none of the `left` attempts remains. Its ensures: at most `left` attempts are counted, and all of them when the question is exhausted. Its lemmas follow. |
| `RetryPolicy.ResolveTwice` | script.js:198-214 | With two attempts allowed, the question ends `Exhausted` exactly when both attempts are rejected. It ends `Crashed` exactly when the first throws, or the first is rejected and the second throws. It ends `Resolved` exactly when the first accepts, or the first is rejected and the second accepts. |
| `RetryPolicy.ResolveCounts` | script.js:195-214 | At most `left` attempts are counted, and all of them on exhaustion. The log starts with the first attempt's first event. The requests used equal the log's length minus the click. An exhausted run used 2 to 3 requests per attempt. |
| `RetryPolicy.ResolveClicks` | script.js:207-210 | The log holds a click exactly when the question is resolved. |
| `RetryPolicy.ResolveClickLast` | script.js:198-210 | In a resolved question's log, the one click is the last event. |
| `RetryPolicy.ResolveAccepting` | script.js:198-210 | A resolved question's log ends with the events of the attempt that accepted, which started three requests before the first unused one and accepted the resolved index. |
| `RetryPolicy.ResolveCrash` | script.js:198-201 | A crashed question completed fewer attempts than allowed, and its log ends with the two events of the attempt that threw. |
| `RetryPolicy.ResolveTurn` | script.js:198-214 | One turn of the loop: a rejection passes on to the next attempt with one more attempt counted; an acceptance resolves the question with that attempt counted; a throw ends it without counting the attempt. |
| `RequestChain.ChainLinks` | script.js:172-215 | The first item's run starts at request 0, and every later item's run starts at the first request number its predecessor left unused. |
| `RequestChain.ChainAt` | script.js:172-215 | Item `k`'s run, within any longer chain, starts where that link says. |
| `AnswerLoop.Collect` | script.js:180-193 | Options and radio elements are kept in lockstep. Each kept text is non-empty and is the text of its element. |
| `AnswerLoop.CollectOrderedComplete` | script.js:184-193 | The kept elements are in document order, and every non-empty option text is kept. |
| `AnswerLoop.CollectOptions` | script.js:180-193 | The `forEach` fills `options` and the radios exactly as `Collect` says. |
| `AnswerLoop.TryOnceShape` | script.js:199-212 | An attempt throws exactly on a `null` extraction with options present. It uses two requests, or three once there is a match to verify. It sends the answer request, then the extraction request of that reply, and clicks only on acceptance, as its last event. |
| `AnswerLoop.TryOnceFacts` | script.js:199-212 | An attempt accepts only the best match for the extracted answer, and only when the verification reply reads as a yes. It then verifies that option and clicks that option's radio. A rejected attempt that had a match got a verification reply that does not read as a yes. |
| `AnswerLoop.Attempt` | script.js:199-212 | The loop body computes what `TryOnce` says, with the `null` extraction and options present ending in `Throw`. |
| `AnswerLoop.AnswerQuestion` | script.js:195-214 | The retry loop's outcome, attempt count, next request number and log are those of `QuestionRun`, the retry policy folded over `TryOnce`. What that means is stated by `QuestionRunFacts`, `TwoAttempts`, `ResolveAcceptsVerifiedMatch` and `NullExtractionCrashes`. |
| `AnswerLoop.QuestionRunFacts` | script.js:195-214 | At most 2 attempts, and the first request asks for an answer. There is a click exactly when the question is resolved. That click is the only one and the last event, on the radio of the best match for the extracted reply, verified with a yes. `Exhausted` means both attempts were used (4 to 6 requests). `Crashed` means a `null` extracted answer while options existed. |
| `AnswerLoop.ResolveAcceptsVerifiedMatch` | script.js:199-210 | The converse: when the first extracted answer is present and its best match is verified with a yes, the question is resolved at the first attempt on that best match, and the fourth and last event clicks its radio. |
| `AnswerLoop.NullExtractionCrashes` | script.js:200-201 | A `null` extraction at the first attempt of a question with options crashes it there, after exactly the answer and extraction requests and with no click. |
| `AnswerLoop.TwoAttempts` | script.js:198-214 | `Exhausted` exactly when both attempts reject, `Crashed` exactly when one throws before any acceptance, `Resolved` exactly when one accepts. |
| `AnswerLoop.AlwaysAccepted` | script.js:198-210 | If every reply is "yes", the question is resolved at the first attempt on the first best match for "yes", and its radio is the last event. |
| `AnswerLoop.AlwaysRejected` | script.js:198-214 | If every reply is "no", the question ends `Exhausted` after exactly 2 attempts with no click. |
| `AnswerLoop.NoOptionsExhausted` | script.js:201-203 | A question with no options never crashes and never clicks. It ends `Exhausted` after 2 attempts. |
| `AnswerLoop.ClickedOptionIsValid` | script.js:184-192 | Because options and radios are pushed in lockstep, a click hits a radio that exists and belongs to a non-empty option, and it is the log's last event. |
| `AnswerLoop.AnswerItem` | script.js:173-214 | One turn of the `for` loop: the heading (or the placeholder), the collected options and the retry loop give the item runner's resolution. |
| `AnswerLoop.AnswerAll` | script.js:169-216 | Items are processed in order and the run stops only at a crash. Outcome and log `k` are those of item `k`'s run in `Chain`, started where the previous item left off. |
| `AnswerLoop.ItemRunFacts` | script.js:172-215 | Item `k`'s run is the question run of its heading and collected options. It starts at request 0 for the first item and, later, at the first request number its predecessor left unused. It first asks for an answer to its own question. Its clicks are valid, and it clicks exactly when resolved, on the best match verified with a yes. |

## Left out

- `send` (script.js:8-32) and its network, HTTP status handling, JSON parsing and console logging are replaced by the `Oracle`: a reply for each request number, with `None` for every kind of failure.
- Replies are assumed to be a string or `null`. `send` returns the reply's `message` as it is (script.js:26-27), so a reply without a string `message` would come back as `undefined`. `verifyAnswer`'s `null` test (script.js:152) would not catch that, and `similarity` at script.js:159 would throw. The `Option<string>` oracle cannot express such a reply.
- The prompts and model names built in `getAnswer`, `extractAnswer` and `verifyAnswer` (script.js:34-66, 133-150) are reduced to the `Request` values they depend on.
- The oracle's reply depends only on the request number, not on the request's text. Any sequence of replies can be chosen, so this covers every run; it just does not express that a real model reads the prompt.
- DOM querying, `textContent.trim()` and `closest("label").querySelector(...)` (script.js:170-193) are left out. A form item is taken to be its optional heading and its already-trimmed option texts.
- Every option element is assumed to have a radio input. The script's `click()` on a missing (`null`) radio would throw, and that is not modelled.
- The `.click()` call (script.js:208) is recorded as a `Clicked` event and not performed. The top-level call `answerAll()` (script.js:218) is not modelled.
- `async`/`await` is modelled as plain sequential calls, since nothing runs concurrently.
- `Scoring.Lower` lower-cases ASCII letters only. Full Unicode `toLowerCase` and the UTF-16 code-unit lengths of JavaScript strings are not modelled.
- `Scoring.Similarity` is an exact rational. The double rounding of `1 - distance / maxLength` is not modelled.
- Nothing beyond the script's own retry policy is modelled, because the script has nothing more:
  - The attempt limit is the literal 2 in the `while` condition (script.js:198). `MaxAttempts` is that constant, not a setting.
  - The only acceptance test is the yes/no verification of `verifyAnswer` (script.js:152-166, 205-210). No other acceptance test exists.
  - The extraction request is always sent, whatever the first reply was (script.js:200).
  - A `null` reply from `getAnswer` is not retried; it is handed to `extractAnswer` (script.js:199-200).
  - A `null` extracted answer with options present throws in `similarity` and ends the run (script.js:201, 73, 86); this is the `Crashed` outcome.
