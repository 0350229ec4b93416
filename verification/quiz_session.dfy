/** The quiz component's state and its event handlers as pure transitions:
    username entry, picking a tier, answering under a countdown, moving
    between questions, finishing (which records a leaderboard entry) and
    restarting. */
module QuizSession {
  import opened Wrappers
  import opened QuizConfig
  import opened Username
  import opened Scoring
  import opened Ranking
  import opened Leaderboard

  /** The screen the component shows. */
  datatype Step = UsernameStep | DifficultyStep | QuizStep | FinishedStep

  /** The component's state. `answers[i]` is `None` until question `i` is
      answered or times out; `selectedAnswers[i]` is the option picked, if
      any. `storage` is the leaderboard slot; `tab` and `shown` are the
      leaderboard tab and the entries it displays. */
  datatype State = State(
    username: string,
    usernameError: string,
    step: Step,
    difficulty: Option<Difficulty>,
    questions: seq<Question>,
    currentQ: int,
    selected: Option<int>,
    score: int,
    answered: bool,
    answers: seq<Option<bool>>,
    selectedAnswers: seq<Option<int>>,
    timeLeft: int,
    tab: Difficulty,
    shown: seq<Entry>,
    storage: Storage)

  /** Seconds per question: the tier's limit, or 30 before a tier is chosen. */
  function TimePerQuestion(s: State): (t: nat)
    ensures s.difficulty.None? ==> t == 30
    ensures s.difficulty.Some? ==> t == TimeLimit(s.difficulty.value) && 20 <= t <= 45
  {
    if s.difficulty.Some? then TimeLimit(s.difficulty.value) else 30
  }

  /** `answers[i] === undefined || answers[i] === null`. */
  predicate Unanswered(answers: seq<Option<bool>>, i: int) {
    !(0 <= i < |answers|) || answers[i].None?
  }

  /** `selectedAnswers[i]`, reading past the end as `undefined`. */
  function SlotAt(sel: seq<Option<int>>, i: int): (v: Option<int>) {
    if 0 <= i < |sel| then sel[i] else None
  }

  /** The `[currentQ]` effect: once a render shows a different question
      than `before`, the timer is set to that render's time per question. */
  function AfterQuestionChange(before: State, after: State): (r: State) {
    if after.currentQ != before.currentQ then after.(timeLeft := TimePerQuestion(after)) else after
  }

  /** What holds of a quiz in progress or finished: a valid sample for the
      chosen tier, ten answer slots of which only the sampled ones are ever
      filled, a recorded pick always matching its stored correctness, a
      true answer always coming from a pick, `answered` and `selected`
      mirroring the current question's pick, the score equal to the number
      of true answers, and the timer within the tier's limit. */
  predicate SessionWF(s: State) {
    && s.difficulty.Some?
    && ValidSample(s.questions, s.difficulty.value)
    && 0 <= s.currentQ < |s.questions|
    && |s.answers| == QuestionsPerQuiz
    && |s.selectedAnswers| == QuestionsPerQuiz
    && (forall i :: 0 <= i < |s.selectedAnswers| && s.selectedAnswers[i].Some? ==>
          i < |s.questions| && s.answers[i] == Some(s.selectedAnswers[i].value == s.questions[i].correctIndex))
    && (forall i :: 0 <= i < |s.selectedAnswers| && s.selectedAnswers[i].None? ==> s.answers[i] != Some(true))
    && (forall i :: |s.questions| <= i < |s.answers| ==> s.answers[i].None?)
    && (s.answered <==> s.selectedAnswers[s.currentQ].Some?)
    && s.selected == s.selectedAnswers[s.currentQ]
    && s.score == CountTrue(s.answers)
    && 0 <= s.timeLeft <= TimeLimit(s.difficulty.value)
  }

  /** The invariant of every reachable state. */
  predicate Inv(s: State) {
    (s.step == QuizStep || s.step == FinishedStep) ==> SessionWF(s)
  }

  /** The component as first mounted: empty username, no tier, and the
      leaderboard panel on the easy tab. */
  function Initial(storage: Storage): (s: State)
    ensures Inv(s) && s.step == UsernameStep
    ensures s.storage == storage && s.tab == Mudah && s.shown == TopByDifficulty(storage, Mudah)
    ensures s.username == "" && s.usernameError == "" && s.difficulty == None && s.timeLeft == 30
  {
    State("", "", UsernameStep, None, [], 0, None, 0, false, [], [], 30, Mudah,
          TopByDifficulty(storage, Mudah), storage)
  }

  /** Typing in the username field: stores the raw text and clears the error. */
  function EditUsername(s: State, raw: string): (r: State)
    requires Inv(s) && s.step == UsernameStep
    ensures Inv(r) && r.step == UsernameStep
    ensures r.username == raw && r.usernameError == ""
    ensures r.(username := s.username, usernameError := s.usernameError) == s
  {
    s.(username := raw, usernameError := "")
  }

  /** `handleUsernameSubmit`: moves on to the tier choice exactly when the
      gate accepts the name, and otherwise shows the first failing check's
      message. The untrimmed text is what stays in the field. */
  function SubmitUsername(s: State): (r: State)
    requires Inv(s) && s.step == UsernameStep
    ensures Inv(r)
    ensures r.step == DifficultyStep <==> Validate(s.username).Ok?
    ensures r.step == DifficultyStep ==> r.usernameError == ""
    ensures r.step != DifficultyStep ==>
      r.step == UsernameStep && r.usernameError == Message(Validate(s.username).error)
    ensures r.(step := s.step, usernameError := s.usernameError) == s
  {
    match Validate(s.username)
    case Err(e) => s.(usernameError := Message(e))
    case Ok(_) => s.(usernameError := "", step := DifficultyStep)
  }

  /** `handlePickDifficulty` with the sampler's result passed in: a fresh
      session on the first question with ten empty answer slots, a zero
      score and the tier's full time. The player, storage and leaderboard
      view are kept. */
  function PickDifficulty(s: State, d: Difficulty, sample: seq<Question>): (r: State)
    requires ValidSample(sample, d)
    ensures Inv(r) && r.step == QuizStep
    ensures r.difficulty == Some(d) && r.questions == sample
    ensures r.currentQ == 0 && r.score == 0 && !r.answered && r.selected == None
    ensures |r.answers| == QuestionsPerQuiz && forall i :: 0 <= i < |r.answers| ==> r.answers[i] == None
    ensures |r.selectedAnswers| == QuestionsPerQuiz && forall i :: 0 <= i < |r.selectedAnswers| ==> r.selectedAnswers[i] == None
    ensures r.timeLeft == TimeLimit(d)
    ensures r.username == s.username && r.usernameError == s.usernameError
    ensures r.storage == s.storage && r.tab == s.tab && r.shown == s.shown
  {
    var empty := seq(QuestionsPerQuiz, _ => None);
    CountTrueNone(empty);
    s.(difficulty := Some(d), questions := sample, currentQ := 0, selected := None,
       score := 0, answered := false, answers := empty,
       selectedAnswers := seq(QuestionsPerQuiz, _ => None),
       timeLeft := TimeLimit(d), step := QuizStep)
  }

  /** The current question and its two answer slots exist. */
  predicate OnQuestion(s: State) {
    0 <= s.currentQ < |s.questions| && s.currentQ < |s.answers| && s.currentQ < |s.selectedAnswers|
  }

  /** `handleSelect`: ignored once the current question is answered or its
      time is up; otherwise records the pick and its correctness for the
      current question only, and adds one to the score exactly when the
      pick is the correct option. */
  function Select(s: State, opt: int): (r: State)
    requires s.step == QuizStep && OnQuestion(s)
    ensures Inv(s) ==> Inv(r)
    ensures r.step == QuizStep
    ensures s.answered || s.timeLeft <= 0 ==> r == s
    ensures !s.answered && s.timeLeft > 0 ==>
      var correct := opt == s.questions[s.currentQ].correctIndex;
      && r.answered && r.selected == Some(opt)
      && r.answers == s.answers[s.currentQ := Some(correct)]
      && r.selectedAnswers == s.selectedAnswers[s.currentQ := Some(opt)]
      && r.score == s.score + (if correct then 1 else 0)
      && r.(answered := s.answered, selected := s.selected, answers := s.answers,
            selectedAnswers := s.selectedAnswers, score := s.score) == s
  {
    if s.answered || s.timeLeft <= 0 then s
    else
      var i := s.currentQ;
      var correct := opt == s.questions[i].correctIndex;
      CountTrueUpdate(s.answers, i, Some(correct));
      s.(selected := Some(opt), answered := true,
         score := s.score + (if correct then 1 else 0),
         answers := s.answers[i := Some(correct)],
         selectedAnswers := s.selectedAnswers[i := Some(opt)])
  }

  /** One second of the countdown, which runs only while the current
      question is unanswered. Above one second it only counts down; at one
      second or less it stops at zero and marks the current question wrong
      if it had no answer yet, leaving an existing answer alone. */
  function Tick(s: State): (r: State)
    requires Inv(s) && s.step == QuizStep && !s.answered
    ensures Inv(r) && r.step == QuizStep && !r.answered
    ensures s.timeLeft > 1 ==> r.timeLeft == s.timeLeft - 1 && r.answers == s.answers
    ensures s.timeLeft <= 1 ==>
      && r.timeLeft == 0
      && |r.answers| == |s.answers|
      && r.answers[s.currentQ] == (if s.answers[s.currentQ] == None then Some(false) else s.answers[s.currentQ])
      && forall i :: 0 <= i < |s.answers| && i != s.currentQ ==> r.answers[i] == s.answers[i]
    ensures r.(timeLeft := s.timeLeft, answers := s.answers) == s
  {
    if s.timeLeft <= 1 then
      var i := s.currentQ;
      var marked := if s.answers[i] == None then s.answers[i := Some(false)] else s.answers;
      CountTrueUpdate(s.answers, i, Some(false));
      s.(timeLeft := 0, answers := marked)
    else
      s.(timeLeft := s.timeLeft - 1)
  }

  /** `n` consecutive ticks. */
  function Ticks(s: State, n: nat): (r: State)
    requires Inv(s) && s.step == QuizStep && !s.answered
    ensures Inv(r) && r.step == QuizStep && !r.answered
    decreases n
  {
    if n == 0 then s else Ticks(Tick(s), n - 1)
  }

  /** Left alone, an unanswered question runs out of time after exactly
      as many ticks as it had seconds left, and is then marked wrong;
      before that, the ticks only count down. */
  lemma {:induction false} CountdownExpires(s: State, n: nat)
    requires Inv(s) && s.step == QuizStep && !s.answered
    requires 1 <= n <= s.timeLeft
    ensures n < s.timeLeft ==> Ticks(s, n) == s.(timeLeft := s.timeLeft - n)
    ensures n == s.timeLeft ==>
      && Ticks(s, n).timeLeft == 0
      && Ticks(s, n).answers[s.currentQ] != None
      && (s.answers[s.currentQ] == None ==> Ticks(s, n).answers[s.currentQ] == Some(false))
  {
    if n > 1 {
      CountdownExpires(s, n - 1);
      var t := Ticks(s, n - 1);
      assert t == s.(timeLeft := s.timeLeft - (n - 1));
      TicksSplit(s, n - 1);
    }
  }

  /** One more tick after `n` ticks. */
  lemma {:induction false} TicksSplit(s: State, n: nat)
    requires Inv(s) && s.step == QuizStep && !s.answered
    ensures Ticks(s, n + 1) == Tick(Ticks(s, n))
    decreases n
  {
    if n > 0 {
      TicksSplit(Tick(s), n - 1);
    }
  }

  /** The first unanswered index in `[lo, hi)`, or -1. */
  function FirstUnansweredIn(answers: seq<Option<bool>>, lo: int, hi: int): (r: int)
    requires 0 <= lo <= hi
    ensures r == -1 <==> forall i :: lo <= i < hi ==> !Unanswered(answers, i)
    ensures r != -1 ==> lo <= r < hi && Unanswered(answers, r)
    ensures r != -1 ==> forall i :: lo <= i < r ==> !Unanswered(answers, i)
    decreases hi - lo
  {
    if lo == hi then -1
    else if Unanswered(answers, lo) then lo
    else FirstUnansweredIn(answers, lo + 1, hi)
  }

  /** Position of `i` in the cyclic order `from + 1, …, total - 1, 0, …, from`. */
  function CyclicRank(from: int, i: int, total: int): (k: int) {
    if i > from then i - from - 1 else i + total - from - 1
  }

  /** `findNextUnanswered`: -1 when every question has an answer, and
      otherwise the first unanswered question in the cyclic order that
      starts just after `from` and ends with `from` itself. */
  function FindNextUnanswered(answers: seq<Option<bool>>, total: int, from: int): (r: int)
    requires 0 <= from < total
    ensures r == -1 <==> forall i :: 0 <= i < total ==> !Unanswered(answers, i)
    ensures r != -1 ==> 0 <= r < total && Unanswered(answers, r)
    ensures r != -1 ==> forall i :: 0 <= i < total && CyclicRank(from, i, total) < CyclicRank(from, r, total)
                          ==> !Unanswered(answers, i)
  {
    var ahead := FirstUnansweredIn(answers, from + 1, total);
    if ahead != -1 then ahead else FirstUnansweredIn(answers, 0, from + 1)
  }

  /** `handleJumpTo`: shows question `idx`, answered exactly when it has a
      recorded pick (which is shown again), with the tier's full time.
      Answers, picks and score are untouched. */
  function JumpTo(s: State, idx: int): (r: State)
    requires Inv(s) && s.step == QuizStep && 0 <= idx < |s.questions|
    ensures Inv(r) && r.step == QuizStep
    ensures r.currentQ == idx
    ensures r.answered <==> s.selectedAnswers[idx].Some?
    ensures r.selected == s.selectedAnswers[idx]
    ensures r.timeLeft == TimeLimit(s.difficulty.value)
    ensures r.(currentQ := s.currentQ, answered := s.answered, selected := s.selected, timeLeft := s.timeLeft) == s
  {
    var prev := SlotAt(s.selectedAnswers, idx);
    s.(currentQ := idx, selected := prev, answered := prev.Some?, timeLeft := TimePerQuestion(s))
  }

  /** The result entry for `score` out of the sampled questions. */
  function ResultEntry(s: State, score: int, now: int): (e: Entry)
    requires s.difficulty.Some? && |s.questions| > 0
  {
    Entry(Trim(s.username), score, |s.questions|, RoundPercent(score, |s.questions|), s.difficulty.value, now)
  }

  /** Moves to the result screen; when a tier is set and the trimmed name is
      nonempty, records `score` with the time `now` and shows that tier's
      leaderboard. */
  function Complete(s: State, score: int, now: int): (r: State)
    requires |s.questions| > 0
    ensures r.step == FinishedStep
    ensures SessionWF(s) ==> SessionWF(r)
    ensures s.difficulty.Some? && |Trim(s.username)| > 0 ==>
      r == s.(step := FinishedStep, storage := r.storage, tab := r.tab, shown := r.shown)
    ensures !(s.difficulty.Some? && |Trim(s.username)| > 0) ==> r == s.(step := FinishedStep)
    ensures s.difficulty.Some? && |Trim(s.username)| > 0 ==>
      && r.storage == SaveToLeaderboard(s.storage, ResultEntry(s, score, now))
      && r.tab == s.difficulty.value
      && r.shown == TopByDifficulty(r.storage, r.tab)
  {
    if s.difficulty.Some? && |Trim(s.username)| > 0 then
      var d := s.difficulty.value;
      var st := SaveToLeaderboard(s.storage, ResultEntry(s, score, now));
      s.(step := FinishedStep, storage := st, tab := d, shown := TopByDifficulty(st, d))
    else
      s.(step := FinishedStep)
  }

  /** `finishQuiz`: finishes with the running score; a leaderboard write
      happens exactly when the trimmed name is nonempty, and then stores the
      entry for that score at time `now`. */
  function FinishQuiz(s: State, now: int): (r: State)
    requires Inv(s) && s.step == QuizStep
    ensures Inv(r) && r.step == FinishedStep
    ensures r.answers == s.answers && r.score == s.score && r.questions == s.questions
    ensures |Trim(s.username)| > 0 ==>
      && r.storage == SaveToLeaderboard(s.storage, ResultEntry(s, s.score, now))
      && r.tab == s.difficulty.value
      && r.shown == TopByDifficulty(r.storage, s.difficulty.value)
    ensures |Trim(s.username)| > 0 ==> r == s.(step := FinishedStep, storage := r.storage, tab := r.tab, shown := r.shown)
    ensures |Trim(s.username)| == 0 ==> r == s.(step := FinishedStep)
  {
    Complete(s, s.score, now)
  }

  /** `handleFinishEarly`: recomputes the score as the number of true
      answers, then finishes like `finishQuiz` with that score. */
  function FinishEarly(s: State, now: int): (r: State)
    requires Inv(s) && s.step == QuizStep
    ensures Inv(r) && r.step == FinishedStep
    ensures r.score == CountTrue(s.answers) && r.answers == s.answers
    ensures |Trim(s.username)| > 0 ==>
      r.storage == SaveToLeaderboard(s.storage, ResultEntry(s, CountTrue(s.answers), now))
    ensures |Trim(s.username)| > 0 ==>
      r == s.(step := FinishedStep, score := r.score, storage := r.storage, tab := r.tab, shown := r.shown)
    ensures |Trim(s.username)| == 0 ==> r == s.(step := FinishedStep, score := r.score)
  {
    var finalScore := CountTrue(s.answers);
    assert s.(score := finalScore) == s;
    Complete(s.(score := finalScore), finalScore, now)
  }

  /** `handleNext`: finishes exactly when no question is left unanswered,
      and otherwise jumps to the next unanswered one in cyclic order. */
  function Next(s: State, now: int): (r: State)
    requires Inv(s) && s.step == QuizStep
    ensures Inv(r)
    ensures r.step == FinishedStep <==> forall i :: 0 <= i < |s.questions| ==> !Unanswered(s.answers, i)
    ensures r.step == FinishedStep ==> r == FinishQuiz(s, now)
    ensures r.step != FinishedStep ==>
      && r.step == QuizStep
      && r.currentQ == FindNextUnanswered(s.answers, |s.questions|, s.currentQ)
      && Unanswered(s.answers, r.currentQ)
      && r == JumpTo(s, r.currentQ)
  {
    var n := FindNextUnanswered(s.answers, |s.questions|, s.currentQ);
    if n == -1 then FinishQuiz(s, now) else JumpTo(s, n)
  }

  /** The advance that the countdown schedules 1500 ms after a timeout, as
      written: the deferred call runs the `handleNext` of the render in which
      the countdown was installed, so the search and the recorded pick it
      reads come from `snapshot`, that render's state, while its updates land
      on `current`, the state when it fires. */
  function AutoAdvanceAsWritten(snapshot: State, current: State, now: int): (r: State)
    requires Inv(snapshot) && snapshot.step == QuizStep
    ensures var n := FindNextUnanswered(snapshot.answers, |snapshot.questions|, snapshot.currentQ);
      n != -1 ==>
        && r.currentQ == n
        && r.selected == snapshot.selectedAnswers[n]
        && (r.answered <==> snapshot.selectedAnswers[n].Some?)
        && (current.difficulty == snapshot.difficulty ==> r.timeLeft == TimeLimit(snapshot.difficulty.value))
        && (n != current.currentQ ==> r.timeLeft == TimePerQuestion(current))
        && (n == current.currentQ ==> r.timeLeft == TimePerQuestion(snapshot))
        && r.(currentQ := current.currentQ, selected := current.selected,
              answered := current.answered, timeLeft := current.timeLeft) == current
    ensures var n := FindNextUnanswered(snapshot.answers, |snapshot.questions|, snapshot.currentQ);
      n == -1 ==> r == current.(step := FinishedStep, storage := r.storage, tab := r.tab, shown := r.shown)
    ensures var n := FindNextUnanswered(snapshot.answers, |snapshot.questions|, snapshot.currentQ);
      n == -1 && |Trim(snapshot.username)| > 0 ==>
        && r.storage == SaveToLeaderboard(current.storage, ResultEntry(snapshot, snapshot.score, now))
        && r.tab == snapshot.difficulty.value
        && r.shown == TopByDifficulty(r.storage, r.tab)
    ensures var n := FindNextUnanswered(snapshot.answers, |snapshot.questions|, snapshot.currentQ);
      n == -1 && |Trim(snapshot.username)| == 0 ==> r == current.(step := FinishedStep)
  {
    var n := FindNextUnanswered(snapshot.answers, |snapshot.questions|, snapshot.currentQ);
    if n == -1 then
      var stale := snapshot.(storage := current.storage, tab := current.tab, shown := current.shown);
      var done := Complete(stale, snapshot.score, now);
      assert ResultEntry(stale, snapshot.score, now) == ResultEntry(snapshot, snapshot.score, now);
      current.(step := done.step, storage := done.storage, tab := done.tab, shown := done.shown)
    else
      var prev := SlotAt(snapshot.selectedAnswers, n);
      AfterQuestionChange(current,
        current.(currentQ := n, selected := prev, answered := prev.Some?, timeLeft := TimePerQuestion(snapshot)))
  }

  /** The state is still on the quiz and question the advance was
      scheduled for: the same tier, sample and current question. */
  predicate StillOn(scheduled: State, s: State) {
    && s.step == QuizStep
    && s.difficulty == scheduled.difficulty
    && s.questions == scheduled.questions
    && s.currentQ == scheduled.currentQ
  }

  /** The advance the countdown is meant to schedule when `scheduled` times
      out: `handleNext` on the state when it fires if that state is still on
      the same quiz and question, and nothing otherwise, as a timer cancelled
      once the player moves on. It keeps the invariant. */
  function AutoAdvance(scheduled: State, s: State, now: int): (r: State)
    requires Inv(s)
    ensures Inv(r)
    ensures StillOn(scheduled, s) ==> r == Next(s, now)
    ensures !StillOn(scheduled, s) ==> r == s
  {
    if StillOn(scheduled, s) then Next(s, now) else s
  }

  /** When the last unanswered question times out, the deferred advance
      still sees it unanswered and reopens it with the full time instead of
      finishing, which `Next` on the state after the timeout does. */
  lemma LastTimeoutReopens(s: State, now: int)
    requires Inv(s) && s.step == QuizStep && !s.answered && s.timeLeft <= 1
    requires s.answers[s.currentQ] == None
    requires forall i :: 0 <= i < |s.questions| && i != s.currentQ ==> !Unanswered(s.answers, i)
    ensures var t := Tick(s);
      && t.timeLeft == 0 && t.answers[s.currentQ] == Some(false)
      && Next(t, now).step == FinishedStep
      && var r := AutoAdvanceAsWritten(s, t, now);
         && r.step == QuizStep && r.currentQ == s.currentQ
         && !r.answered && r.timeLeft == TimeLimit(s.difficulty.value)
  {
    var n := FindNextUnanswered(s.answers, |s.questions|, s.currentQ);
    assert Unanswered(s.answers, s.currentQ);
    assert n == s.currentQ;
  }

  /** If the player answers the next question within the 1500 ms, the
      deferred advance, reading the old picks, reopens that answered
      question; a second correct pick is then accepted and counted again, so
      the score exceeds the number of true answers. `Next` keeps the
      invariant, under which this cannot happen. */
  lemma RaceCountsAnswerTwice(s: State, now: int)
    requires Inv(s) && s.step == QuizStep && !s.answered && s.timeLeft <= 1
    requires s.answers[s.currentQ] == None
    requires FindNextUnanswered(s.answers, |s.questions|, s.currentQ) != s.currentQ
    ensures var j := FindNextUnanswered(s.answers, |s.questions|, s.currentQ);
      && 0 <= j < |s.questions|
      && var c := s.questions[j].correctIndex;
         var answeredJ := Select(JumpTo(Tick(s), j), c);
         var r := AutoAdvanceAsWritten(s, answeredJ, now);
         && answeredJ.score == CountTrue(answeredJ.answers)
         && r.currentQ == j && !r.answered && r.answers[j] == Some(true)
         && !Inv(r)
         && Select(r, c).score == CountTrue(Select(r, c).answers) + 1
  {
    var j := FindNextUnanswered(s.answers, |s.questions|, s.currentQ);
    assert Unanswered(s.answers, s.currentQ);
    assert s.selectedAnswers[j] == None;
    var t1 := Tick(s);
    assert t1.selectedAnswers == s.selectedAnswers;
    var t2 := JumpTo(t1, j);
    assert !t2.answered && t2.timeLeft > 0 && t2.currentQ == j;
    var c := s.questions[j].correctIndex;
    var t3 := Select(t2, c);
    assert Inv(t3) && t3.answers[j] == Some(true) && t3.selectedAnswers[j] == Some(c);
    var r := AutoAdvanceAsWritten(s, t3, now);
    assert r.answers == t3.answers && r.selectedAnswers == t3.selectedAnswers && r.score == t3.score;
    assert !r.answered && r.currentQ == j && r.selectedAnswers[j].Some?;
    var r2 := Select(r, c);
    assert r2.answers == r.answers;
  }

  /** A question that timed out before is revisited as the last open one
      and times out again. The stale advance then runs the stale
      `finishQuiz`; if the player finished early within the 1500 ms, the
      quiz is recorded twice. `AutoAdvance` leaves the finished quiz alone,
      so it is recorded once. */
  lemma StaleFinishWritesTwice(s: State, early: int, now: int)
    requires Inv(s) && s.step == QuizStep && !s.answered && s.timeLeft <= 1
    requires forall i :: 0 <= i < |s.questions| ==> !Unanswered(s.answers, i)
    requires |Trim(s.username)| > 0 && |GetLeaderboard(s.storage)| + 2 <= Capacity
    ensures var f := FinishEarly(Tick(s), early);
      && |GetLeaderboard(f.storage)| == |GetLeaderboard(s.storage)| + 1
      && |GetLeaderboard(AutoAdvanceAsWritten(s, f, now).storage)| == |GetLeaderboard(s.storage)| + 2
      && AutoAdvance(s, f, now) == f
  {
    var t := Tick(s);
    assert FindNextUnanswered(s.answers, |s.questions|, s.currentQ) == -1;
    var f := FinishEarly(t, early);
    assert f.storage == SaveToLeaderboard(s.storage, ResultEntry(t, CountTrue(t.answers), early));
  }

  /** The same stale `finishQuiz` after a restart within the 1500 ms shows
      the result screen without a tier, a state outside the invariant in
      which the component renders nothing. `AutoAdvance` leaves the
      restarted component on the tier choice. */
  lemma StaleFinishAfterRestart(s: State, now: int)
    requires Inv(s) && s.step == QuizStep && !s.answered && s.timeLeft <= 1
    requires forall i :: 0 <= i < |s.questions| ==> !Unanswered(s.answers, i)
    ensures var q := Restart(Tick(s));
      var r := AutoAdvanceAsWritten(s, q, now);
      && r.step == FinishedStep && r.difficulty == None && !Inv(r)
      && AutoAdvance(s, q, now) == q && q.step == DifficultyStep
  {
    assert FindNextUnanswered(s.answers, |s.questions|, s.currentQ) == -1;
  }

  /** A question times out, and within the 1500 ms the player restarts and
      picks a tier with a shorter limit. When the stale search lands on
      question 0, the stale `handleJumpTo` gives the new quiz's first
      question the old tier's time, which the `[currentQ]` effect does not
      correct since the question does not change: the timer exceeds the new
      tier's limit. `AutoAdvance` leaves the new quiz as it was picked. */
  lemma StaleTimerAfterRepick(s: State, d: Difficulty, sample: seq<Question>, now: int)
    requires Inv(s) && s.step == QuizStep && !s.answered && s.timeLeft <= 1
    requires FindNextUnanswered(s.answers, |s.questions|, s.currentQ) == 0
    requires ValidSample(sample, d) && TimeLimit(d) < TimePerQuestion(s)
    ensures var q := PickDifficulty(Restart(Tick(s)), d, sample);
      var r := AutoAdvanceAsWritten(s, q, now);
      && r.step == QuizStep && r.currentQ == 0 && r.difficulty == Some(d)
      && r.timeLeft == TimePerQuestion(s) && r.timeLeft > TimeLimit(d) && !Inv(r)
      && AutoAdvance(s, q, now) == q && Inv(q) && q.timeLeft == TimeLimit(d)
  {
    var q := PickDifficulty(Restart(Tick(s)), d, sample);
    assert q.currentQ == 0 && q.difficulty != s.difficulty;
  }

  /** `handleRestart`: discards the session and returns to the tier choice,
      keeping the player and the leaderboard. Moving back to question 0
      triggers the `[currentQ]` effect, which sets the timer to 30, the
      time per question without a tier. */
  function Restart(s: State): (r: State)
    ensures Inv(r) && r.step == DifficultyStep
    ensures r.difficulty == None && r.questions == [] && r.answers == [] && r.selectedAnswers == []
    ensures r.score == 0 && r.currentQ == 0 && !r.answered && r.selected == None
    ensures r.username == s.username && r.usernameError == s.usernameError
    ensures r.storage == s.storage && r.shown == s.shown && r.tab == s.tab
    ensures s.currentQ != 0 ==> r.timeLeft == 30
    ensures s.currentQ == 0 ==> r.timeLeft == s.timeLeft
  {
    AfterQuestionChange(s,
      s.(difficulty := None, questions := [], currentQ := 0, selected := None, score := 0,
         answered := false, answers := [], selectedAnswers := [], step := DifficultyStep))
  }

  /** `handleFullRestart`: a restart that also forgets the player and
      returns to the username screen. */
  function FullRestart(s: State): (r: State)
    ensures Inv(r) && r.step == UsernameStep
    ensures r.username == "" && r.usernameError == ""
    ensures r.difficulty == None && r.questions == [] && r.answers == [] && r.selectedAnswers == []
    ensures r.score == 0 && r.currentQ == 0 && !r.answered && r.selected == None
    ensures r.storage == s.storage && r.shown == s.shown && r.tab == s.tab
    ensures s.currentQ != 0 ==> r.timeLeft == 30
    ensures s.currentQ == 0 ==> r.timeLeft == s.timeLeft
  {
    Restart(s).(username := "", usernameError := "", step := UsernameStep)
  }

  /** Choosing a leaderboard tab shows that tier's top entries. Choosing
      the tab already shown sets the same state, so nothing re-renders and
      the `[leaderboardTab]` effect does not refresh the entries. */
  function SelectTab(s: State, d: Difficulty): (r: State)
    ensures r.tab == d
    ensures d != s.tab ==> r.shown == TopByDifficulty(s.storage, d)
    ensures d == s.tab ==> r == s
    ensures r.(tab := s.tab, shown := s.shown) == s
  {
    if d == s.tab then s else s.(tab := d, shown := TopByDifficulty(s.storage, d))
  }

  /** The running score always equals the number of true answers, even
      after a timed-out question is answered again; so finishing through
      `finishQuiz` and through `handleFinishEarly` gives the same state. */
  lemma FinishPathsAgree(s: State, now: int)
    requires Inv(s) && s.step == QuizStep
    ensures FinishQuiz(s, now) == FinishEarly(s, now)
  {
  }

  /** A second pick on the same question changes nothing: the first pick's
      answer, selection and score stand. */
  lemma SelectIsIdempotent(s: State, first: int, second: int)
    requires Inv(s) && s.step == QuizStep
    ensures Select(Select(s, first), second) == Select(s, first)
  {
  }

  /** A question that timed out counts as answered (wrong) for `handleNext`
      but has no recorded pick, so jumping back to it restarts its timer and
      lets it be answered again; a correct second answer turns it true and
      adds one to the score. */
  lemma TimedOutQuestionCanBeReanswered(s: State, i: int)
    requires Inv(s) && s.step == QuizStep && 0 <= i < |s.questions|
    requires s.answers[i] == Some(false) && s.selectedAnswers[i] == None
    ensures !Unanswered(s.answers, i)
    ensures var t := JumpTo(s, i);
      && !t.answered && t.timeLeft > 0
      && Select(t, s.questions[i].correctIndex).answers[i] == Some(true)
      && Select(t, s.questions[i].correctIndex).score == s.score + 1
  {
  }

  /** An entry whose percentage is the rounded ratio of a score between
      zero and a positive total of at most ten questions. */
  predicate EntryConsistent(e: Entry) {
    && 0 < e.total <= QuestionsPerQuiz
    && 0 <= e.score <= e.total
    && e.percentage == RoundPercent(e.score, e.total)
    && 0 <= e.percentage <= 100
  }

  /** A finished quiz writes a consistent entry, so a board of consistent
      entries stays consistent. */
  lemma FinishKeepsEntriesConsistent(s: State, now: int)
    requires Inv(s) && s.step == QuizStep
    requires forall x :: x in GetLeaderboard(s.storage) ==> EntryConsistent(x)
    ensures forall x :: x in GetLeaderboard(FinishQuiz(s, now).storage) ==> EntryConsistent(x)
  {
    CountTrueBound(s.answers, |s.questions|);
    PercentInRange(s.score, |s.questions|);
    if |Trim(s.username)| > 0 {
      var e := ResultEntry(s, s.score, now);
      assert EntryConsistent(e);
      var board := GetLeaderboard(FinishQuiz(s, now).storage);
      forall x | x in board
        ensures EntryConsistent(x)
      {
        assert x in multiset(board);
        assert x in multiset(GetLeaderboard(s.storage) + [e]);
        assert x in GetLeaderboard(s.storage) + [e];
      }
    }
  }

  /** Every question answered correctly gives the full score, a recorded
      100 and a displayed 100. */
  lemma PerfectRunScoresHundred(s: State, now: int)
    requires Inv(s) && s.step == QuizStep
    requires forall i :: 0 <= i < |s.questions| ==> s.answers[i] == Some(true)
    ensures FinishQuiz(s, now).score == |s.questions|
    ensures ResultEntry(s, s.score, now).percentage == 100
    ensures DisplayPercentage(FinishQuiz(s, now).score, |FinishQuiz(s, now).questions|) == 100
  {
    CountTrueExact(s.answers, |s.questions|);
    PercentInRange(s.score, |s.questions|);
  }

  /** A restart leaves nothing of the old session that the next quiz sees. */
  lemma RestartThenPickIsFresh(s: State, d: Difficulty, sample: seq<Question>)
    requires ValidSample(sample, d)
    ensures PickDifficulty(Restart(s), d, sample) == PickDifficulty(s, d, sample)
  {
  }
}
