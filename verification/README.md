# TypeAce typing test — a Dafny model

This project models the session engine of the TypeAce typing-speed widget
and its word-list maintenance script.

- `session.dfy` (`Session`): the test session as an immutable record. The
  record holds the passage, the typed input, the status
  (idle / running / paused / finished), the elapsed seconds, the four
  scores and the flags Caps Lock, focus, loading, clock-ticking and
  backspace lock. `Step` applies one event: input change, focus, blur,
  Caps Lock probe, timer tick, reset with a new passage, or backspace-lock
  change. Every step ends with the completion rule: a running session
  whose input has reached the passage length finishes and is scored.
- `metrics.dfy` (`Metrics`): `finishTest`'s scoring. Correct characters,
  errors, accuracy, words and characters per minute, with the
  division-by-zero guards. Rates are exact `real`s.
- `classify.dfy` (`Classify`): the per-character feedback. Each passage
  character is shown correct, incorrect or untyped.
- `caret.dfy` (`Caret`): the four-tier caret placement over abstract glyph
  rectangles, relative to the text container.
- `words_add.dfy` (`WordsAdd`): `add_words` as a pure merge. It unions the
  stored list with the new words, drops duplicates and sorts by a
  lower-cased key. Lower-casing is a function parameter.

Details of the code the model keeps:
- Completion fires when the input length is at least the passage length.
- Characters typed beyond the passage count as errors. So
  `correct + errors == |input|` holds for every input.
- Input is accepted while paused, without a status change. The input can
  therefore exceed the passage, and resuming can finish the session at once.
- The caret has four tiers: the next glyph, the right edge of the previous
  glyph, the first glyph, and the container origin. The first-glyph tier is
  taken when the input is one or more characters past the end of the
  passage (`Caret.CaretPastEndJumpsToStart`).

Modelling choices:
- Each React event or effect is one atomic transition on a consistent state.
- `Date.now` and `setInterval` become `Tick(delta)`. Time passed since the
  last tick before a pause is never ticked, which is also how the source
  loses it.
- `timerLive` means "the interval is ticking". In the source, `finishTest` and
  `resetTest` clear the interval without clearing the handle that
  `pauseTimer` tests. `pauseTimer` is only called on a running session, and
  a session only becomes running through `startTimer`, which sets the
  handle. So the two readings agree at every call reachable from the
  initial state (`Session.Inv`: the clock ticks exactly while running).
- Backspace lock is modelled as: with the lock on, an input change that
  shortens the input is refused.
- Loading is true only before the first passage. `Reset(next)` stands for
  `fetchNewText`: reset, store the new passage, stop loading, focus.

## Model

| member | source | states |
|---|---|---|
| Metrics.Tally | src/components/typing-test.tsx:192-202 | The scoring loop counts an index as correct exactly when the passage has that index and the characters match; correct plus errors is the number typed, and correct never exceeds the passage length. |
| Metrics.CorrectBound | src/components/typing-test.tsx:196-202 | Correct characters are at most the typed length and at most the passage length. |
| Metrics.NoErrorsIffPrefix | src/components/typing-test.tsx:196-202 | Every typed character is correct if and only if the input is a prefix of the passage. |
| Metrics.AccuracyFacts | src/components/typing-test.tsx:206 | Accuracy is 0 with nothing typed, otherwise a percentage in [0,100], equal to 100 exactly when every typed character is correct, and proportional to the correct count. |
| Metrics.Score | src/components/typing-test.tsx:204-215 | Errors are typed minus correct; accuracy is 0 for empty input, else within [0,100] and equal to 100 exactly when there are no errors; WPM and CPM are never negative, are 0 when no time elapsed, CPM times seconds is 60 times the correct count, and WPM is CPM / 5. |
| Metrics.ExampleOneTypo | src/components/typing-test.tsx:206-215 | "abd" against "abc" in 60 s scores WPM 0.4, CPM 2, accuracy 200/3, 1 error. |
| Metrics.ExampleNothingTyped | src/components/typing-test.tsx:206-215 | An empty input scores all zeros whatever the elapsed time. |
| Classify.Classify | src/components/typing-test.tsx:296-301 | One state per passage character: correct iff typed and matching, untyped iff not yet typed, incorrect otherwise. |
| Classify.FeedbackMatchesScore | src/components/typing-test.tsx:297-301 | The number of correct cells equals the scored correct count; incorrect cells plus overflow characters equal the scored errors; untyped cells are the passage characters not yet reached. |
| Classify.IncorrectCellsAreErrors | src/components/typing-test.tsx:297-301 | When the input is no longer than the passage, incorrect cells are exactly the scored errors. |
| Caret.Locate | src/components/typing-test.tsx:273-291 | The four tiers in priority order: the next glyph; else the right edge of the previous glyph with its top and height; else the first glyph's left edge; else the container origin with height 24; always relative to the container. |
| Caret.CaretOnNextChar | src/components/typing-test.tsx:275-276 | With every passage glyph rendered, mid-passage the caret sits on the next character to type. |
| Caret.CaretAfterLastChar | src/components/typing-test.tsx:277-279 | At the end of a non-empty passage the caret sits at the last glyph's right edge with its height. |
| Caret.CaretPastEndJumpsToStart | src/components/typing-test.tsx:275-282 | One or more characters past the end, the caret falls back to the first glyph. |
| Caret.CaretHeightPositive | src/components/typing-test.tsx:275-286 | If every rendered glyph has positive height, so does the caret. |
| Caret.CaretTranslationInvariant | src/components/typing-test.tsx:288-292 | Moving the container and all glyphs together leaves the caret unchanged. |
| Session.StartTimer | src/components/typing-test.tsx:130-138 | Starting the clock makes the session running with the clock ticking; every other field is kept. |
| Session.PauseTimer | src/components/typing-test.tsx:140-148 | Pausing stops the clock; a ticking session becomes paused unless it is finished, which stays finished; every other field is kept; it is a no-op when the clock is not ticking. |
| Session.OnTick | src/components/typing-test.tsx:134-136 | A tick adds its delta to the elapsed time only while the clock ticks and changes nothing else. |
| Session.FinishTest | src/components/typing-test.tsx:188-216 | Finishing stops the clock, marks the session finished and scores the input with the elapsed time as of the last tick; every other field is kept. |
| Session.Settle | src/components/typing-test.tsx:218-222 | After the completion rule no session is both running and complete; a running complete session becomes finished with the clock stopped and is scored, every other field kept; any other session is left as it is. |
| Session.ResetTest | src/components/typing-test.tsx:99-119 | A reset installs the new passage, idle, with empty input, zero time and scores, clock stopped, focused and not loading; Caps Lock and backspace lock are kept. |
| Session.HandleInput | src/components/typing-test.tsx:224-233 | A change is ignored entirely when finished, loading, under Caps Lock, or a shortening under backspace lock; otherwise it is stored, and a non-empty first input makes the session running with the clock ticking; only input, status and clock change. |
| Session.HandleFocus | src/components/typing-test.tsx:247-252 | Focus is recorded; a paused session resumes exactly when Caps Lock is off; otherwise status and clock are unchanged; no other field changes. |
| Session.HandleBlur | src/components/typing-test.tsx:254-259 | Loss of focus is recorded; a running session pauses; otherwise status and clock are unchanged; no other field changes. |
| Session.CheckCapsLock | src/components/typing-test.tsx:151-164 | The Caps Lock flag follows the probe; turning on pauses a running session; turning off resumes a paused session only if focused; otherwise status and clock are unchanged; no other field changes. |
| Session.Step | src/components/typing-test.tsx:99-259 | The passage changes only on a reset; the input only on an input change or a reset; the Caps Lock, focus and backspace-lock flags only on their own events (focus also on reset); after any step no session is both running and complete. |
| Session.InitialInv | src/components/typing-test.tsx:52-63 | The mounted component satisfies the session invariant. |
| Session.StepInv | src/components/typing-test.tsx:130-259 | Every event with a non-negative tick preserves the invariant: the clock ticks exactly while running, a running session is never complete, idle means nothing typed or timed, loading implies idle, and scores are zero until finish and then are the final input's scores. |
| Session.RunInv | src/components/typing-test.tsx:130-259 | The invariant holds along every run of well-formed events. |
| Session.InputIgnoredWhenBlocked | src/components/typing-test.tsx:225 | While finished, loading or under Caps Lock an input event leaves the whole session unchanged. |
| Session.InputAcceptedIff | src/components/typing-test.tsx:173-175 | An input is stored unless blocked or a shortening under backspace lock, in which case nothing changes. |
| Session.FirstInputStarts | src/components/typing-test.tsx:228-230 | A non-empty first input starts the session: running with the clock ticking, or finished at once if it already covers the passage. |
| Session.EmptyInputStaysIdle | src/components/typing-test.tsx:228-232 | An empty input leaves an idle session unchanged. |
| Session.InputCompletes | src/components/typing-test.tsx:218-222 | While running, an input reaching the passage length finishes the session in the same step, scored on that input. |
| Session.InputKeepsRunning | src/components/typing-test.tsx:224-233 | While running, a shorter accepted input only replaces the input. |
| Session.PausedAcceptsInput | src/components/typing-test.tsx:225-232 | While paused, an accepted input replaces the input and the session stays paused. |
| Session.RunningPauses | src/components/typing-test.tsx:254-259 | From running, a blur or Caps Lock coming on yields paused with the clock stopped. |
| Session.FocusResumesIff | src/components/typing-test.tsx:247-252 | From paused, focus resumes exactly when Caps Lock is off. |
| Session.CapsOffResumesIff | src/components/typing-test.tsx:159-162 | From paused, Caps Lock going off resumes exactly when focused. |
| Session.ResumeNeedsBoth | src/components/typing-test.tsx:247-252 | After a resume event on a paused session, it runs if and only if it is focused and Caps Lock is off. |
| Session.FocusEventsOtherwiseKeepStatus | src/components/typing-test.tsx:151-164 | In every other case focus, blur and Caps Lock events keep the status, input, time and scores. |
| Session.BackspaceSettingOnlyFlag | src/components/typing-test.tsx:363 | Toggling the backspace-lock checkbox changes the lock and nothing else. |
| Session.PauseIdempotent | src/components/typing-test.tsx:140-148 | Pausing twice equals pausing once. |
| Session.BlurTwiceIsBlurOnce | src/components/typing-test.tsx:254-259 | A second blur in a row changes nothing. |
| Session.TickAccruesOnlyWhileRunning | src/components/typing-test.tsx:134-136 | A tick adds its delta exactly when the session is running. |
| Session.ElapsedOnlyOnTick | src/components/typing-test.tsx:102-135 | The elapsed time is written only by a reset (line 102) and a tick (line 135): every other event leaves it unchanged. |
| Session.ElapsedMonotone | src/components/typing-test.tsx:134-136 | Along a run with non-negative ticks and no reset, the elapsed time never decreases. |
| Session.FinishedIsTerminal | src/components/typing-test.tsx:225 | A finished session stays finished, with input, time and scores frozen, under every event but reset. |
| Session.FinishedIsTerminalRun | src/components/typing-test.tsx:225 | The same along every run without a reset. |
| Session.ScoresChangeOnlyAtFinish | src/components/typing-test.tsx:188-222 | Scores change only on a reset or on the step that finishes the session, so completion scores once. |
| Session.ResetClears | src/components/typing-test.tsx:99-110 | From any state a reset yields idle, empty input, zero time and scores, clock stopped, focused. |
| Session.ExampleCatDog | src/components/typing-test.tsx:218-225 | Typing "cat dog" in full against "cat dog" finishes with no errors, and a further input is ignored. |
| WordsAdd.Load | src/ai/words_add.py:6-11 | A missing file reads as the empty list, an existing one as its words. |
| WordsAdd.AddOne | src/ai/words_add.py:15 | Adding a word keeps the collection duplicate-free and adds exactly that word. |
| WordsAdd.AddAll | src/ai/words_add.py:14-15 | Adding a list keeps the collection duplicate-free and holds exactly the old and the new words. |
| WordsAdd.ToSet | src/ai/words_add.py:13 | The collection of the stored words is duplicate-free with the same members. |
| WordsAdd.Insert | src/ai/words_add.py:18 | Inserting into a key-sorted list gives a key-sorted list with that one word more. |
| WordsAdd.SortByKey | src/ai/words_add.py:18 | Sorting yields a permutation ordered by the lower-cased key. |
| WordsAdd.AdjacentSortedIsSorted | src/ai/words_add.py:18 | Ordered neighbours mean every word sorts no later than every word after it. |
| WordsAdd.AddWords | src/ai/words_add.py:5-18 | The output holds every stored word and every new word, nothing else, no duplicates, in non-decreasing lower-cased order. |
| WordsAdd.AddPresentKeepsWords | src/ai/words_add.py:13-15 | Adding only words already stored leaves the set of words unchanged. |
| WordsAdd.AddTwiceKeepsWords | src/ai/words_add.py:13-18 | Adding the same words a second time leaves the set of words unchanged. |
| WordsAdd.AddToMissing | src/ai/words_add.py:7-8 | With no file, the output holds exactly the new words. |

## Left out

- React hooks, batching and stale closures: each event is one atomic transition on a consistent state.
- Rendering, styling, the Caps Lock dialog and the non-breaking space shown for a mistyped space: presentation only.
- `Date.now` and `setInterval`: replaced by `Tick(delta)`; the 1-second period is not modelled.
- DOM geometry: glyph and container rectangles are inputs to `Caret.Locate`. The effect's guard on a mounted container is not modelled.
- Settings load and save in `localStorage`, and `Number()` parsing of the stored word count: I/O.
- `generateFallbackText`: random choice from JSON word lists. `Reset` takes the new passage as a parameter.
- The Ctrl/Cmd+R shortcut, the "new text" button and the word-count/language changes: all reduce to the `Reset` event.
- Paste suppression: a pasted value never reaches the input handler, so no event models it.
- Session.HandleInput: the source blocks only the Backspace key. Deletion by the Delete key, by cutting or by replacing a selection is not blocked there. The model refuses every shortening change while the lock is on.
- Display rounding (`Math.floor`, `Math.round`, `toFixed`).
- JavaScript doubles: the elapsed seconds (accumulated tick by tick) and the accuracy, WPM and CPM rates are exact `real`s, so floating-point rounding in the sums and divisions is not modelled.
- UTF-16 counting: the source's `length`, `split('')` and indexing count UTF-16 code units, while a Dafny `char` is a Unicode scalar value. For text outside the Basic Multilingual Plane (an emoji, say) lengths, indices and scores differ: "😀" against "ab" is complete with 2 errors in the source but incomplete here.
- The focus call inside `resetTest`: clicking "new text" or changing a setting during a running test first blurs the input (pausing it), and the synchronous `focus()` then runs the focus handler with the stale paused status, so the new test can start with the clock ticking before any keystroke. `Reset` is modelled as one atomic transition to idle with the clock stopped.
- `add_words`: the JSON read and write, the command-line handling, and the real Unicode semantics of `str.lower`, which is an arbitrary function `lower`.
- WordsAdd.AddWords: Python's `sorted` is stable, but its input is a set with no defined order. The relative order of words with equal lower-cased keys is therefore not stated.
- `src/app/page.tsx`: layout markup only.
