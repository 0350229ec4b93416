# Quiz engine and CO₂ condition bands of the global-warming teaching page

This project models in Dafny the two pieces of logic in the page that are not
static markup, and proves properties about them.

1. **The quiz engine** in `src/components/QuizSection.tsx`:
   - the username gate (trim, then four ordered checks);
   - the leaderboard store: read, record with sort and cap of 50, and the
     per-tier top-ten view;
   - the quiz session's state and its handlers: pick a tier, select an
     option, the countdown tick, the wrap-around search for the next
     unanswered question, jump, both ways of finishing, and both restarts;
   - the rounded percentage.
2. **The condition classifier** `getCondition` in
   `src/components/CO2SimulationSection.tsx`. It sorts a CO₂ concentration
   into six bands.

Files, one module each:

- `wrappers.dfy`: `Option` and `Result`.
- `quiz_config.dfy`: tiers `Mudah`/`Sedang`/`Sulit` and their limits of
  20/30/45 seconds. Also the question shape and what a valid sample is.
- `username.dfy`: ECMAScript whitespace, `trim`, UTF-16 length, and the gate.
- `scoring.dfy`: `Math.round(score / total * 100)` done exactly as
  `(200·score + total) div (2·total)`, and the count of true answers.
- `ranking.dfy`: entries, the comparator, and a stable insertion sort.
- `leaderboard.dfy`: the storage slot, `saveToLeaderboard` and
  `getTopByDifficulty`.
- `quiz_session.dfy`: the component state, its invariant, and every handler
  as a pure transition.
- `co2_condition.dfy`: the six bands.

The session invariant `QuizSession.Inv` holds initially, and every modelled
transition's contract shows that it is preserved. The auto-advance that the
countdown schedules after a timeout is modelled by `QuizSession.AutoAdvance`:
`QuizSession.Next` on the state at the time it fires while that state is
still on the quiz and question that timed out, and nothing otherwise, as a
timer cancelled once the player moves on. The code as written runs a stale copy of the handler
instead, which can break the invariant; see "## Findings". Within the
model, four consequences matter:

- The score counter equals the number of `true` answers. A question
  can be answered a second time only after it timed out. A timeout records
  `false` and no pick, so a correct second answer moves that slot from
  `false` to `true` exactly when the counter goes up by one. As a result,
  `finishQuiz`, which saves the counter, and `handleFinishEarly`, which
  saves the count of `true`, produce the same state
  (`QuizSession.FinishPathsAgree`).
- The answer arrays have 10 slots. Slots past the sampled questions
  stay `null`.
- `answered` and `selected` mirror the pick recorded for the current
  question.
- The timer never exceeds the tier's limit.

Behaviour of the code that may surprise a reader, followed by the model:

- The allowed character class is `[a-zA-Z0-9_\s]`, so any ECMAScript
  whitespace is allowed, not only the space character.
- A timed-out question can be answered again after a jump back to it.
- The score is kept as a counter next to the answer flags. It is not
  derived from them; the invariant shows the two agree.
- The stored percentage is computed when the entry is written.
- The `[currentQ]` effect (QuizSection.tsx:103-105) sets the timer whenever
  the question changes. `QuizSession.JumpTo` already sets the same value, so
  the effect only shows in a restart from a question other than the first,
  which sets the timer to 30, and in the stale advance.

## Model

| member | source | states |
|---|---|---|
| `QuizConfig.TimeLimit` | src/components/QuizSection.tsx:5-9 | The time per question is 20 seconds for Mudah, 30 for Sedang and 45 for Sulit |
| `Username.Trim` | src/components/QuizSection.tsx:273 | The result is the infix of the input left after dropping all leading and trailing whitespace: everything removed is whitespace, and a nonempty result neither starts nor ends with whitespace |
| `Username.TrimIdempotent` | src/components/QuizSection.tsx:273 | Trimming twice gives the same as trimming once |
| `Username.Validate` | src/components/QuizSection.tsx:272-292 | The checks run on the trimmed input in a fixed order, and each error occurs exactly when every earlier check passes and its own fails: Empty iff the name is empty; TooShort iff it is nonempty with a UTF-16 length below 2; TooLong iff that length exceeds 20; InvalidCharacters iff the length is 2..20 and some character is outside `[a-zA-Z0-9_\s]`. The name is accepted, as the trimmed text, iff all four checks pass |
| `Username.ValidateIgnoresSurroundingSpace` | src/components/QuizSection.tsx:272-273 | The outcome of the gate depends only on the trimmed input |
| `Username.AcceptedNameIsClean` | src/components/QuizSection.tsx:273-291 | An accepted name has length 2 to 20, does not start or end with whitespace, contains only allowed characters, and is accepted again unchanged |
| `Username.ShortNames` | src/components/QuizSection.tsx:278-281 | "a" and " a " are rejected as too short; "ab" is accepted |
| `Scoring.RoundPercent` | src/components/QuizSection.tsx:201 | The result p is the integer nearest to 100·score/total, with halves rounded up: 2·total·p ≤ 200·score + total < 2·total·(p+1) |
| `Scoring.DisplayPercentage` | src/components/QuizSection.tsx:295 | The displayed percentage is 0 when there are no questions, and otherwise the rounded percentage |
| `Scoring.PercentInRange` | src/components/QuizSection.tsx:201 | A score between 0 and the total gives a percentage between 0 and 100; a full score gives exactly 100 and a zero score exactly 0 |
| `Scoring.CountTrue` | src/components/QuizSection.tsx:217 | The count of `true` answers is at most the number of slots; it is 0 iff no slot is `true`, and equals the number of slots iff every slot is `true` |
| `Scoring.PercentMonotone` | src/components/QuizSection.tsx:201 | A higher score never gives a lower percentage |
| `Ranking.RanksBeforeIsTotalPreorder` | src/components/QuizSection.tsx:36 | The comparator (percentage descending, then date descending) relates every pair of entries and is transitive |
| `Ranking.Insert` | src/components/QuizSection.tsx:36 | Inserting into a sorted board gives a sorted board that holds exactly the old entries plus the new one |
| `Ranking.Sort` | src/components/QuizSection.tsx:36 | The sorted board is ordered by the comparator and is a permutation of its input |
| `Ranking.SortSortedIsIdentity` | src/components/QuizSection.tsx:36 | Sorting a board that is already sorted leaves it unchanged, as a stable sort does |
| `Ranking.InsertKeepsTies` | src/components/QuizSection.tsx:36 | Inserting an entry puts it in front of every entry it ties with and keeps their order |
| `Ranking.SortIsStable` | src/components/QuizSection.tsx:36 | For every entry, the entries tying with it (same percentage and date) appear in the sorted board in their input order |
| `Leaderboard.GetLeaderboard` | src/components/QuizSection.tsx:24-31 | A missing or unreadable slot reads as the empty board; a stored board reads as itself |
| `Leaderboard.PrefixOutranksRest` | src/components/QuizSection.tsx:37 | Cutting a sorted board keeps entries that rank before every entry dropped |
| `Leaderboard.SaveToLeaderboard` | src/components/QuizSection.tsx:33-38 | After a write the stored board: holds min(50, old length + 1) entries; is sorted; is drawn from the old board plus the new entry, and is exactly those when the old board had fewer than 50; and every kept entry ranks before every dropped one. A missing or unreadable slot counts as an empty board |
| `Leaderboard.FilterTier` | src/components/QuizSection.tsx:42 | The filtered board holds only entries of the tier, and holds every entry of that tier |
| `Leaderboard.FilterTierCounts` | src/components/QuizSection.tsx:42 | Every entry of the tier occurs in the filtered board exactly as often as on the board, and no other entry occurs |
| `Leaderboard.TopByDifficulty` | src/components/QuizSection.tsx:40-44 | The view has at most 10 entries, all of the requested tier. It is the first min(10, tier size) entries of the tier's entries in board order, so it is an order-preserving subsequence of the stored board. It is sorted whenever the board is, and empty when storage is missing or unreadable |
| `Leaderboard.ViewAfterSaveIsSorted` | src/components/QuizSection.tsx:33-44 | The tier view read after a write is sorted, whatever the storage held before |
| `Leaderboard.NewLeaderIsFirst` | src/components/QuizSection.tsx:33-44 | An entry that strictly outranks every stored entry heads the board and its tier's view after it is recorded |
| `QuizSession.Initial` | src/components/QuizSection.tsx:48-78 | The mounted component is on the username screen with an empty name, no error and no tier, a timer of 30 and the store passed in; it satisfies the session invariant and shows the easy tier's tab and its top entries |
| `QuizSession.TimePerQuestion` | src/components/QuizSection.tsx:66 | With a tier chosen, the time per question is that tier's limit, between 20 and 45 seconds; with none, it is 30 |
| `QuizSession.EditUsername` | src/components/QuizSection.tsx:325-328 | Typing stores the raw text, clears the error, and changes nothing else |
| `QuizSession.SubmitUsername` | src/components/QuizSection.tsx:272-292 | The screen moves to the tier choice iff the gate accepts the name. On rejection it stays and shows the message of the first failing check. The untrimmed text is kept |
| `QuizSession.PickDifficulty` | src/components/QuizSection.tsx:257-270 | A new quiz starts on question 0 with score 0, 10 null answer slots and 10 null pick slots, and the tier's full time (20/30/45). Player and storage are kept and the invariant holds |
| `QuizSession.Select` | src/components/QuizSection.tsx:145-161 | Nothing happens when the question is already answered or time is up. Otherwise the state becomes answered, the current slot records the pick and whether it is correct, the score rises by 1 iff the pick is correct, and no other slot or field changes |
| `QuizSession.Tick` | src/components/QuizSection.tsx:84-97 | Above one second, the tick only counts down by 1. At one second or less, the timer becomes 0 and the current answer becomes false only if it was null; an existing answer is left alone and nothing else changes |
| `QuizSession.CountdownExpires` | src/components/QuizSection.tsx:84-97 | Before the last second, ticks only count down. After as many ticks as seconds left, the timer is 0 and the current question has an answer (false if it had none) |
| `QuizSession.FirstUnansweredIn` | src/components/QuizSection.tsx:164-169 | The result is the first index in the range whose answer is null or undefined, or -1 iff there is none |
| `QuizSession.FindNextUnanswered` | src/components/QuizSection.tsx:163-171 | The result is -1 iff every question has an answer. Otherwise it is an unanswered question, the first in the cyclic order from+1, …, total-1, 0, …, from |
| `QuizSession.JumpTo` | src/components/QuizSection.tsx:182-193 | The current question becomes idx. It counts as answered iff it has a recorded pick, and that pick is shown again. The timer resets to the tier's limit, and answers, picks and score are unchanged |
| `QuizSession.Next` | src/components/QuizSection.tsx:173-180 | The quiz finishes iff no question is unanswered. Otherwise it jumps to the next unanswered question in cyclic order, which is never one that already has an answer |
| `QuizSession.AutoAdvanceAsWritten` | src/components/QuizSection.tsx:81-105 | The deferred advance runs the search on the state of the render that installed the countdown. When that search finds a question, it moves there, shows that older state's pick and marks it answered iff there was one, and sets the timer: to the current render's time per question when the question changes, and otherwise to the older render's, which is the tier's full time when the tier is unchanged; every other field keeps its value at the time the advance fires. When the search finds none, the stale `finishQuiz` shows the result screen and, for a nonempty trimmed name in the older state, adds that state's entry, with its running score, to the current store and shows its tier's tab and view; nothing else changes |
| `QuizSession.AutoAdvance` | src/components/QuizSection.tsx:93 | The intended advance keeps the invariant: it is `handleNext` on the state when it fires if that state is still on the tier, sample and question that timed out, and changes nothing otherwise, in particular once the quiz has been finished, restarted or replaced by a new one |
| `QuizSession.StaleTimerAfterRepick` | src/components/QuizSection.tsx:93 | When a question times out and the player restarts and picks a tier with a shorter limit within the 1500 ms, a stale advance that lands on question 0 leaves the new quiz's first question with the old tier's time, above the new limit and outside the invariant; the intended advance leaves the new quiz as picked |
| `QuizSession.StaleFinishWritesTwice` | src/components/QuizSection.tsx:93 | When a timed-out question revisited as the last open one times out again and the player finishes early within the 1500 ms, the stale advance adds a second entry to the store, while the intended advance leaves the one entry of the early finish |
| `QuizSession.StaleFinishAfterRestart` | src/components/QuizSection.tsx:93 | In the same situation, a restart within the 1500 ms is followed by the result screen without a tier, a state outside the invariant; the intended advance leaves the tier choice shown |
| `QuizSession.LastTimeoutReopens` | src/components/QuizSection.tsx:84-97 | When the last unanswered question times out, `Next` on the state after the timeout finishes the quiz, but the deferred advance as written reopens the same question, unanswered, with the full time |
| `QuizSession.RaceCountsAnswerTwice` | src/components/QuizSection.tsx:84-97 | If the player jumps to the next unanswered question and answers it correctly before the deferred advance fires, the advance reopens that answered question, breaks the invariant, and a second correct pick makes the score exceed the number of true answers by one |
| `QuizSession.FinishQuiz` | src/components/QuizSection.tsx:195-213 | The result screen is shown and the invariant holds. When the trimmed name is nonempty, the store receives the entry for the running score, with the rounded percentage, that tier's tab and view are shown, and no other field changes. Otherwise only the screen changes and nothing is written |
| `QuizSession.FinishEarly` | src/components/QuizSection.tsx:215-235 | The score becomes the number of true answers, and that score is what is recorded. Apart from the score, the screen and, for a nonempty trimmed name, the store, tab and view, nothing changes |
| `QuizSession.Restart` | src/components/QuizSection.tsx:237-248 | The session is discarded (no tier, no questions, empty answer and pick arrays, question 0, score 0, nothing selected) and the tier choice is shown; the player, its error text and the leaderboard are kept. Moving back to question 0 sets the timer to 30 through the `[currentQ]` effect; when the quiz was already on question 0 the timer is kept |
| `QuizSession.FullRestart` | src/components/QuizSection.tsx:250-255 | The session is discarded as in a restart, the name and its error text are cleared, and the username screen is shown; the store and the leaderboard tab and view are kept, and the timer is set to 30 unless the quiz was on question 0 |
| `QuizSession.SelectTab` | src/components/QuizSection.tsx:72-78 | Choosing another tab shows that tier's top entries and changes nothing else; choosing the tab already shown changes nothing, not even the entries shown |
| `QuizSession.FinishPathsAgree` | src/components/QuizSection.tsx:195-235 | Under the session invariant the score counter equals the number of true answers, so both finishing handlers produce the same state and the same leaderboard write |
| `QuizSession.SelectIsIdempotent` | src/components/QuizSection.tsx:145-146 | A second pick on the same question leaves the first pick, its correctness and the score as they were |
| `QuizSession.TimedOutQuestionCanBeReanswered` | src/components/QuizSection.tsx:182-192 | After a timeout, the question counts as answered for the search but has no pick. Jumping back reopens it with the full time (in the code the countdown runs again only when the jump changes the question), and a correct answer then makes it true and adds 1 to the score |
| `QuizSession.FinishKeepsEntriesConsistent` | src/components/QuizSection.tsx:200-209 | A finished quiz writes an entry with 0 ≤ score ≤ total ≤ 10 and percentage = round(100·score/total) in 0..100, so a consistent board stays consistent |
| `QuizSession.PerfectRunScoresHundred` | src/components/QuizSection.tsx:201 | When every question is answered correctly, the score is the total, and both the recorded and the displayed percentage are 100 |
| `QuizSession.RestartThenPickIsFresh` | src/components/QuizSection.tsx:237-270 | Starting a quiz after a restart gives the same state as starting it directly, so no trace of the old session remains |
| `CO2Condition.GetCondition` | src/components/CO2SimulationSection.tsx:17-54 | Each band is exactly its interval with an inclusive upper bound: ≤ 280 Pra-Industri, (280, 350] Aman, (350, 450] Peringatan, (450, 600] Berbahaya, (600, 800] Kritis, > 800 Katastrofik |
| `CO2Condition.ConditionCountsThresholds` | src/components/CO2SimulationSection.tsx:17-54 | A concentration's band rank equals the number of thresholds (280, 350, 450, 600, 800) strictly below it |
| `CO2Condition.ConditionMonotone` | src/components/CO2SimulationSection.tsx:17-54 | A higher concentration is never in a lower band |
| `CO2Condition.LabelIdentifiesBand` | src/components/CO2SimulationSection.tsx:17-54 | The six labels are pairwise different, so the label shown determines the band |
| `CO2Condition.ConditionLabel` | src/components/CO2SimulationSection.tsx:17-54 | Each label is shown exactly for the concentrations of its interval: "Pra-Industri" iff ≤ 280, "Aman" iff in (280, 350], "Peringatan" iff in (350, 450], "Berbahaya" iff in (450, 600], "Kritis" iff in (600, 800], "Katastrofik" iff > 800 |

## Left out

- Rendering (all JSX): the question navigator's `showNav` toggle, the leaderboard panel, the other page sections, and the anti-copy DOM listeners (QuizSection.tsx:108-140). These are presentation and browser event plumbing.
- The question bank and `getRandomQuestions`: not part of this model, and random. The sample is an input of `QuizSession.PickDifficulty`, required to hold 1 to 10 distinct questions of the tier with valid correct indices.
- An empty sample: the question bank is assumed to hold questions for every tier. With an empty quiz the question view renders nothing (QuizSection.tsx:534), so no handler the player can trigger is reachable from it; the countdown still fires (QuizSection.tsx:81-97), but its effects on an empty quiz are not modelled.
- `localStorage` and JSON: the slot is a `Storage` value, either missing, unreadable or a parsed board. Text that parses to something other than an array of entries is not modelled.
- `setInterval`/`setTimeout` scheduling: the one-second tick is `QuizSession.Tick`, and the auto-advance 1500 ms after a timeout is `QuizSession.AutoAdvance`, applied to the state at the time it fires. The code as written runs the `handleNext` captured when the countdown was installed; that behaviour is `QuizSession.AutoAdvanceAsWritten` and is listed under "## Findings". The delay itself is not modelled: the player's actions in the 1500 ms are given as an explicit state.
- When the countdown runs: the interval is cleared at a timeout (QuizSection.tsx:87) and installed again only when the quiz starts or stops, `answered` changes or the question changes (QuizSection.tsx:101). `QuizSession.Tick` may be applied to any running, unanswered question, so the model does not capture a question reopened without such a change, whose time is shown but does not count down.
- QuizSession.AutoAdvance: identifies the quiz that timed out by its tier and sample, so a new quiz with the same tier and the same sample, on the same question, counts as the same one.
- Dates: `new Date().toISOString()` becomes an integer timestamp `now`, in milliseconds, passed to the finishing handlers. Entries whose dates do not parse are not modelled.
- Scoring.RoundPercent: it computes `Math.round(score / total * 100)` exactly, while the source uses floating point. For totals up to ten the two agree: a half can only arise with total 8, where the division is exact in binary.
- The dead `finalScore` expression in `finishQuiz` (QuizSection.tsx:196) has no effect and is not modelled.
- `getTemperatureChange`, `getSeaLevelRise` and the bar scaling in CO2SimulationSection.tsx: floating-point logarithms and scaling.
- The emoji, description and colour strings of each CO₂ band: display strings. The concentration is modelled as an integer, which the slider (150 to 1000, step 5) always produces.

## Findings

| source | as written | input that shows it | evidently intended | confidence | as-written member | corrected member |
|---|---|---|---|---|---|---|
| src/components/QuizSection.tsx:93 | The advance scheduled 1500 ms after a timeout calls the `handleNext` of the render that installed the countdown, so it searches the answers as they were before the timeout | The last unanswered question runs out of time: the stale search still finds that question, so the quiz reopens it with the full time instead of finishing. None of the countdown's dependencies changes, so no countdown is installed again: the time is shown but never runs down, and the question has no time limit | After a timeout on the last open question the quiz finishes | medium, not executed | `QuizSession.AutoAdvanceAsWritten`, `QuizSession.LastTimeoutReopens` | `QuizSession.Next` |
| src/components/QuizSection.tsx:93 | The same stale advance sets `answered` from the pick array of the older render | A question times out; within 1500 ms the player jumps to the next open question and answers it correctly; the advance then reopens it as unanswered and a second correct pick raises the score again | A question is counted at most once, so the score equals the number of `true` answers | medium, not executed | `QuizSession.AutoAdvanceAsWritten`, `QuizSession.RaceCountsAnswerTwice` | `QuizSession.Next` |
| src/components/QuizSection.tsx:93 | The 1500 ms timeout is not cancelled when the quiz is left, and when the stale search finds no open question it runs the stale `finishQuiz` | A timed-out question is revisited as the last open one and times out again; within 1500 ms the player finishes early, and the stale advance records the quiz a second time | A quiz is recorded once | medium, not executed | `QuizSession.AutoAdvanceAsWritten`, `QuizSession.StaleFinishWritesTwice` | `QuizSession.AutoAdvance` |
| src/components/QuizSection.tsx:93 | The same uncancelled stale `finishQuiz` | In the same situation the player restarts within 1500 ms; the result screen appears without a tier and the component renders nothing (QuizSection.tsx:534) | A restart stays on the tier choice | medium, not executed | `QuizSession.AutoAdvanceAsWritten`, `QuizSession.StaleFinishAfterRestart` | `QuizSession.AutoAdvance` |
| src/components/QuizSection.tsx:93 | The uncancelled stale `handleJumpTo` sets the timer to the time per question of the older render | A Sulit question times out; within 1500 ms the player restarts and picks Mudah; the stale search lands on question 0, so the new quiz's first question gets 45 seconds instead of 20, and the `[currentQ]` effect does not correct it since the question does not change | A new quiz starts with its own tier's time | medium, not executed | `QuizSession.AutoAdvanceAsWritten`, `QuizSession.StaleTimerAfterRepick` | `QuizSession.AutoAdvance` |
