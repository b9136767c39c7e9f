# Vision-QA chat session controller, modelled in Dafny

The `App` component of this single-page front end (src/App.jsx) lets a user
pick an image, type a question and send both to a hosted image-question
inference endpoint; the answer is appended to a chat transcript and typed out
character by character. This project models the component's controller, the
part that is logic rather than markup:

- the five state hooks `image`, `question`, `chat`, `loading`,
  `animatedText`, plus the `text` and `index` captured by the running typing
  interval (`Session.State`, `Component.App`);
- `handleImageChange`, the question input's `onChange`, `handleAsk` (guard,
  user turn, loading flag, question clearing) split at its awaits (the
  base64 read at line 32 and the POST at line 41) into `Ask` and
  `Succeed(body)` / `Fail`, where either await throwing ends in `Fail`;
- `typeText` and one firing of its interval (`Tick`);
- the answer chosen from the response body (`Answer.AnswerOf`, JavaScript's
  `||` chain as `Answer.FirstTruthy`);
- the rule that renders each transcript entry (`Transcript.Shown`).

Files: `wrappers.dfy` (Option), `answer.dfy`, `transcript.dfy`,
`deferred.dfy` (the interval's firing when React runs the updater after the
increment; see Findings), `session.dfy` (the controller as a state machine over values, with events
and runs, the invariant `Consistent` and the lemmas), `component.dfy` (the
same controller as a class whose methods update fields and are proved to
end in the state `Session` prescribes), `overlap.dfy` (the typing intervals
as the code actually runs them; see Findings).

The network call and the timer are inputs: the awaited base64 read and HTTP request end in
an `Answered(body)` or `Failed` event, and each 20 ms interval callback is a
`TimerFired` event. The Ask button is disabled while `loading`
(src/App.jsx:98) and `handleAsk` never checks the flag itself, so `Ask`
requires `!loading`.

What the code does, which the model follows: any chosen file is accepted
unchecked (no type or size limit); the guard tests only that an image is
present and that the question is not the empty string, so a question of
spaces is sent; a failed call appends nothing to the transcript (it only
raises an alert); there is no reset action and no speech output.

## Model

| member | source | states |
|---|---|---|
| `Answer.FirstTruthy` | src/App.jsx:52 | the value of a JavaScript OR chain of optional strings ending in a fallback is never empty when the fallback is not |
| `Answer.FirstTruthyPicks` | src/App.jsx:52 | the chain yields the first truthy operand, whatever comes after it |
| `Answer.FirstTruthyFallsBack` | src/App.jsx:52 | when every leading operand is absent or empty the chain yields its last operand |
| `Answer.AnswerOf` | src/App.jsx:52 | the chosen answer is never empty, so it can always be typed out |
| `Answer.AnswerSelection` | src/App.jsx:52 | selection order: a non-empty `answer`, else a non-empty `generated_text`, else the JSON rendering of the whole body |
| `Transcript.Shown` | src/App.jsx:116-129 | an entry is shown as anything but its content only when it is the last entry and the assistant's, and then it is shown as the animated text |
| `Session.SelectImage` | src/App.jsx:11-13 | the image becomes the chosen file, or none, and nothing else changes; kept invariant in `Session.StepKeepsConsistent` |
| `Session.EditQuestion` | src/App.jsx:92 | the question becomes the typed text and nothing else changes |
| `Session.Ask` | src/App.jsx:15-20 | without an image or with question "" the state is unchanged; otherwise loading is set and the question is appended as one user turn (full statement in `Session.AskGuard`, `Session.AskStarts`) |
| `Session.StartTyping` | src/App.jsx:66-69 | the animated text is cleared and typing of the text starts at index 0; transcript, flags, question and image are unchanged |
| `Session.Succeed` | src/App.jsx:52-63 | the answer `AnswerOf(body)` is appended as one assistant turn, loading is cleared, the question is "" and typing of the answer starts from nothing (whole exchange in `Session.ExchangeSucceeds`) |
| `Session.Fail` | src/App.jsx:56-63 | the transcript is unchanged, loading is cleared and the question is ""; image and typing are untouched (whole exchange in `Session.ExchangeFails`) |
| `Session.Tick` | src/App.jsx:69-73 | appends the character at the index to the animated text; the interval advances, and stops exactly after the last character; nothing else changes (k firings in `Session.TicksType`) |
| `Overlap.ClearForAsk` | src/App.jsx:19 | clears the animated text and leaves every running interval running |
| `Session.InitialConsistent` | src/App.jsx:5-9 | the first render satisfies the session invariant |
| `Session.StepKeepsConsistent` | src/App.jsx:11-74 | every event keeps the invariant: an awaited call has the question as last turn; an answer as last turn is shown as the part typed so far, all of it once typing stops |
| `Session.RunKeepsConsistent` | src/App.jsx:11-74 | every admissible sequence of events keeps the invariant |
| `Session.AskGuard` | src/App.jsx:16 | `Ask` leaves the whole state unchanged (question, transcript, flags, animated text) exactly when the guard `Session.CanAsk` fails: there is no image or the question is "" (only emptiness is tested) |
| `Session.AskStarts` | src/App.jsx:18-20 | a valid `Ask` sets loading, clears the animated text and appends exactly the current question as one user turn, touching nothing else |
| `Session.InterimKeepsExchange` | src/App.jsx:11-92 | picking a file, typing (line 92) and timer firings (lines 69-73) leave the transcript and the loading flag unchanged |
| `Session.ExchangeSucceeds` | src/App.jsx:15-64 | ask, any interim events, success: the transcript is the old one plus the question turn then the `AnswerOf(body)` turn; loading ends false, question "", typing of that answer starts from nothing |
| `Session.ExchangeFails` | src/App.jsx:15-64 | ask, any interim events, failure: the transcript is the old one plus the question turn only; loading ends false and the question is "" |
| `Session.TicksType` | src/App.jsx:66-74 | k firings append the next k characters of the text; the interval stops exactly when its last character is appended |
| `Session.AnswerTypedOut` | src/App.jsx:52-74 | after an answer arrives and k firings (k at most its length) the animated text is its first k characters; typing has stopped exactly when k is its length |
| `Session.DisplayIsPrefix` | src/App.jsx:116-129 | on a consistent state every entry is shown as a prefix of its content, and as less than all of it only while the last answer is being typed |
| `Component.App.constructor` | src/App.jsx:5-9 | the initial field values, which satisfy the invariant |
| `Component.App.HandleImageChange` | src/App.jsx:11-13 | the chosen file, or none, replaces the image; nothing else changes |
| `Component.App.SetQuestion` | src/App.jsx:92 | the typed text replaces the question; nothing else changes |
| `Component.App.HandleAsk` | src/App.jsx:15-20 | the early return or the start of an exchange, as `Session.Ask`; the transcript is unchanged or gains exactly the question |
| `Component.App.TypeText` | src/App.jsx:66-69 | clears the animated text and starts the interval over the text at index 0 |
| `Component.App.Succeed` | src/App.jsx:52-63 | the success path as `Session.Succeed`: the transcript gains exactly the answer turn; the invariant is kept |
| `Component.App.Fail` | src/App.jsx:56-63 | the failure path as `Session.Fail`: the transcript is unchanged; loading and question are cleared |
| `Component.App.Tick` | src/App.jsx:69-73 | one interval callback as `Session.Tick`; the invariant is kept |
| `Component.App.TypeToEnd` | src/App.jsx:66-74 | the interval runs until it clears itself: the rest of its text is appended and no other field changes |
| `Component.AskAndAnswer` | src/App.jsx:15-74 | on one object: ask, success, typing runs out; the transcript gains question then answer and the answer is shown in full |
| `Component.AskAndFail` | src/App.jsx:15-63 | on one object: ask, failure; the transcript gains the question alone |
| `Overlap.TypeTextAsWritten` | src/App.jsx:66-69 | as written `typeText` clears the animated text and adds the interval over the text at index 0 after all running ones, removing none |
| `Overlap.Fire` | src/App.jsx:69-73 | with the updater read at call time, the firing of running interval k appends that interval's next character to the shared animated text; the interval advances, or is removed after its last character, and no other interval changes |
| `Overlap.OverlappingAnswersInterleave` | src/App.jsx:66-74 | a concrete run in which two answers' intervals overlap and the text shown for answer "xy" ends as "bxy" |
| `Deferred.At` | src/App.jsx:70 | what `prev + text[i]` appends: the character at i inside the text, the string "undefined" past its end |
| `Deferred.TickDeferred` | src/App.jsx:69-73 | a firing whose updater reads `index` after the increment appends the character one past the one it was fired for; the interval advances and stops as `Session.Tick`'s does |
| `Deferred.DeferredCursor` | src/App.jsx:69-72 | k such firings advance the interval by k and stop it exactly after the last character, as with the read at call time |
| `Deferred.DeferredPrefix` | src/App.jsx:69-72 | while the interval runs, k such firings append the next k characters shifted by one, starting after the character the first firing was for |
| `Deferred.DeferredTypesShifted` | src/App.jsx:66-74 | a full run from the interval's index appends the rest of the text without its first character, then "undefined", and the interval stops after the same number of firings as with the read at call time |
| `Deferred.DeferredReadShowsShifted` | src/App.jsx:66-74 | answer "abc" is shown as "bcundefined" with the read after the increment and as "abc" with the read at call time |
| `Overlap.SingleIntervalAgrees` | src/App.jsx:69-73 | with one interval running, a firing as written and `Session.Tick` give the same animated text and interval |

## Left out

- The HTTP request (src/App.jsx:34-50), its payload, endpoint and token: network I/O; its outcome is the `Answered(body)` or `Failed` event.
- The base64 conversion through `FileReader` (src/App.jsx:24-32): browser I/O; the image is an opaque `Blob`. A reader error ends in the catch block, which is the `Failed` event.
- A nullish response body (`null` or `undefined`) makes line 52 throw, which also lands in the catch block: it is a `Failed` event, not a `Body`.
- Non-string `answer` or `generated_text` values: `Body` holds those fields as optional strings; a truthy number or object would be passed on unchanged by the code and is not modelled.
- `typeText` on an empty or non-string text, where `index === text.length` never holds: `AnswerOf` is proved never empty, and `StartTyping` requires a non-empty string.
- The 20 ms period and the `setInterval`/`clearInterval` calls: each callback is one `TimerFired` event and clearing is the cursor becoming `Stopped`.
- `Session.Succeed`: replaces any running interval, where the code leaves it running; the code's behaviour is modelled in `Overlap` and reported under Findings.
- `Session.StartTyping`: replaces any running interval with the new one, where the code's `typeText` leaves the earlier interval running beside it; modelled as written in `Overlap.TypeTextAsWritten`.
- `Component.App.TypeText`: sets the single cursor to the new interval, discarding a still-running one that the code keeps firing; the model holds at most one interval (see `Overlap` and Findings).
- `Component.App.Succeed`: through `TypeText`, discards a still-running interval that the code keeps firing; it follows `Session.Succeed`, the corrected behaviour reported under Findings.
- `Session.Tick`: counts the answer in Unicode scalar values, where `text[index]` and `text.length` count UTF-16 code units; a character outside the Basic Multilingual Plane takes two firings in the code (the first showing a lone surrogate) and one in the model. The fully typed text is the same.
- `Session.TicksType`: the k firings are counted in Unicode scalar values, not UTF-16 code units (see `Session.Tick`); a lone surrogate inside an answer is not representable.
- `Session.AnswerTypedOut`: the prefix after k firings and the firing count to the end are in Unicode scalar values, not UTF-16 code units (see `Session.Tick`); the final shown text equals the answer either way.
- `Component.App.Tick`: counts in Unicode scalar values as `Session.Tick` does.
- `Session.Tick`: appends `text[index]` read before line 71's increment, that is, it assumes React runs the updater of line 70 at the call; the read at the next render is modelled in `Deferred.TickDeferred` and reported under Findings.
- `Session.TicksType`: relies on the read at call time of `Session.Tick`; with the read after the increment the text is typed shifted by one (`Deferred.DeferredPrefix`, `Deferred.DeferredTypesShifted`).
- `Session.AnswerTypedOut`: relies on the read at call time of `Session.Tick`; with the read after the increment the answer is shown without its first character and followed by "undefined".
- `Component.App.Tick`: reads the index before the increment, as `Session.Tick` does.
- `Component.App.TypeToEnd`: the appended rest of the text relies on the read at call time of `Session.Tick`.
- `Component.AskAndAnswer`: "the answer is shown in full" relies on the read at call time of `Session.Tick` and counts in Unicode scalar values; see Findings for the read after the increment.
- `Overlap.Fire`: reads the index at call time, as `Session.Tick` does, and counts in Unicode scalar values where the code counts UTF-16 code units.
- `Overlap.TypeTextAsWritten`: its interval's index and length count Unicode scalar values, not UTF-16 code units.
- `Deferred.TickDeferred`: counts in Unicode scalar values, as `Session.Tick` does.
- `Deferred.At`: `text[i]` is taken as the Unicode scalar value at i, where JavaScript's `text[i]` is one UTF-16 code unit (half of a character outside the Basic Multilingual Plane).
- `Deferred.DeferredCursor`: the index and the number of firings to the end are in Unicode scalar values, not UTF-16 code units; a text with a character outside the Basic Multilingual Plane takes more firings in the code.
- `Deferred.DeferredPrefix`: the one-character shift and the appended characters are Unicode scalar values, not UTF-16 code units.
- `Deferred.DeferredTypesShifted`: the dropped first character and the firing count are in Unicode scalar values, not UTF-16 code units.
- `Component.App.TypeToEnd`: counts in Unicode scalar values as `Session.Tick` does; the text appended by the end is the same.
- `alert` (src/App.jsx:16, 57) and `console.error` (src/App.jsx:58): user notification and logging, with no effect on state.
- JSX rendering, the role labels "You"/"Assistant", styles, and the image preview from `URL.createObjectURL` (src/App.jsx:76-136): presentation and a browser resource.
- A second `Ask` while `loading`: the button is disabled (src/App.jsx:98), so no such event exists in the model.
- tailwind.config.js: build configuration with no logic.

## Findings

| source | as written | input that shows it | evidently intended | confidence | as-written member | corrected member |
|---|---|---|---|---|---|---|
| src/App.jsx:66-74 | `typeText` keeps no handle to a running interval, so a new answer starts a second interval beside the first and both append to `animatedText` | with each updater run at call time, and the new exchange finishing within one 20 ms interval period (with real network latency the same happens to any long first answer still being typed): answer "ab" has one character typed; a new question is asked and answer "xy" arrives; when both intervals have cleared, "xy" is displayed as "bxy" | a new answer's typing replaces the previous one, so the last answer is displayed exactly | medium, not executed | `Overlap.OverlappingAnswersInterleave` | `Session.Succeed` (proved: `Session.AnswerTypedOut`, `Session.StepKeepsConsistent`, `Session.DisplayIsPrefix`) |
| src/App.jsx:70-71 | the interval's updater `(prev) => prev + text[index]` reads the mutable `index`, which line 71 increments in the same callback; when React runs the updater at the next render (batched updates from a timer) it reads the advanced index | answer "abc" is shown as "bcundefined" once the interval has stopped | each firing appends the character it was fired for, so the whole answer is shown | low (depends on when React evaluates the updater), not executed | `Deferred.DeferredReadShowsShifted` | `Session.Tick` (proved: `Session.TicksType`, `Session.AnswerTypedOut`) |
